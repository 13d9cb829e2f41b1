/** Where reassembly (kernel/src/ip_reasm.rs) departs from its promise, on fragments that no sender like
    ours makes: the completion test compares a count with the total length instead of looking for
    holes, and a payload range may end before it starts. */
module IpLimits {
  import opened Wrappers
  import opened DiskFormat
  import opened InetSum
  import opened IpFragment
  import opened IpReasm
  import opened IpRoundTrip

  // --- the completion test ----------------------------------------------------------------------

  /** How many bytes below the total length are missing. */
  function Holes(s: State): (r: nat)
    requires Good(s) && s.totalKnown
  {
    s.total - CountTrue(s.seen[..s.total])
  }

  /** How many bytes at or beyond the total length have been received. */
  function Beyond(s: State): (r: nat)
    requires Good(s) && s.totalKnown
  {
    CountTrue(s.seen[s.total..])
  }

  /** What completion promises: the last fragment has been seen and no byte below the total is missing. */
  ghost predicate NothingMissing(s: State)
    requires Good(s)
  {
    s.totalKnown && forall i :: 0 <= i < s.total ==> s.seen[i]
  }

  lemma {:induction false} CountSplit(s: seq<bool>, t: nat)
    requires t <= |s|
    ensures CountTrue(s) == CountTrue(s[..t]) + CountTrue(s[t..])
  {
    if t == |s| {
      assert s[..t] == s && s[t..] == [];
    } else {
      var n := |s| - 1;
      CountSplit(s[..n], t);
      assert s[..n][..t] == s[..t] && s[..n][t..] == s[t..][..n - t];
    }
  }

  lemma {:induction false} CountPositive(s: seq<bool>, i: nat)
    requires i < |s| && s[i]
    ensures CountTrue(s) > 0
  {
    if i < |s| - 1 {
      CountPositive(s[..|s| - 1], i);
    }
  }

  lemma HolesZero(s: State)
    requires Good(s) && s.totalKnown
    ensures Holes(s) == 0 <==> NothingMissing(s)
  {
    var low := s.seen[..s.total];
    CountFull(low, s.total);
    assert forall k :: 0 <= k < s.total ==> low[k] == s.seen[k];
  }

  /** The test holds exactly when as many bytes have been received beyond the total as are missing below. */
  lemma CompleteIffBalanced(s: State)
    requires Good(s)
    ensures IsComplete(s) <==> s.totalKnown && Holes(s) == Beyond(s)
  {
    if s.totalKnown {
      CountSplit(s.seen, s.total);
    }
  }

  /** The test is right if and only if nothing was received beyond the total, or bytes are missing and
      their number is not that of the bytes beyond. It errs in both directions: with as many bytes
      beyond as are missing it accepts a datagram with a hole, and with some beyond and none missing it
      refuses a whole one. */
  lemma TestRightIff(s: State)
    requires Good(s)
    ensures (IsComplete(s) <==> NothingMissing(s)) <==>
            !s.totalKnown || Beyond(s) == 0 || (Holes(s) != 0 && Holes(s) != Beyond(s))
  {
    CompleteIffBalanced(s);
    if s.totalKnown {
      HolesZero(s);
    }
  }

  // --- frames on which it errs --------------------------------------------------------------------

  function Word(v: u16): (r: seq<u8>)
    ensures |r| == 2 && Be16(r, 0) == v
  {
    var x: int := v;
    [x / 0x100, x % 0x100]
  }

  /** An IPv4 fragment with a 20-byte header. */
  function RawFragment(ident: u16, off: nat, more: bool, data: seq<u8>): (r: seq<u8>)
    requires |data| <= MAX_FRAME
    ensures |r| == HDR + |data|
  {
    Fill(12) + [8, 0, 0x45, 0] + Word(IP_HDR + |data|) + Word(ident) + Word(FragField(off, more)) + Fill(12) + data
  }

  function Fill(n: nat): (r: seq<u8>)
    ensures |r| == n
  {
    seq(n, _ => 0)
  }

  lemma RawParses(ident: u16, off: nat, more: bool, data: seq<u8>)
    requires |data| <= MAX_FRAME && off % 8 == 0 && off < REASM_MAX && (more || off > 0)
    ensures var r := RawFragment(ident, off, more, data);
            && ParseFragment(r) == Some(Frag(off, |data|, more, ident)) && HeaderLen(r) == IP_HDR
            && PayloadEnd(r) == |r| && r[HDR..] == data
  {
    FieldParts(off, more);
    var r := RawFragment(ident, off, more, data);
    assert Be16(r, 16) as int == IP_HDR + |data| && Be16(r, 18) == ident && Be16(r, 20) == FragField(off, more);
    assert r[12] == 8 && r[13] == 0 && r[14] == 0x45;
  }

  /** Delivering such a fragment stores its data. */
  lemma RawDelivered(s: State, ident: u16, off: nat, more: bool, data: seq<u8>)
    requires Good(s) && |data| <= MAX_FRAME && off % 8 == 0 && off < REASM_MAX && (more || off > 0)
    requires off + |data| <= REASM_MAX
    ensures var r := RawFragment(ident, off, more, data);
            Deliver(s, r) == Taken(s, Frag(off, |data|, more, ident), r, data)
  {
    RawParses(ident, off, more, data);
    var r := RawFragment(ident, off, more, data);
    assert r[HDR..|r|] == data;
  }

  lemma {:induction false} CountRange(s: seq<bool>, a: nat, b: nat)
    requires a <= b <= |s| && forall i :: 0 <= i < |s| ==> (s[i] <==> a <= i < b)
    ensures CountTrue(s) == b - a
  {
    if |s| > 0 {
      var n := |s| - 1;
      CountRange(s[..n], if a <= n then a else n, if b <= n then b else n);
    }
  }

  /** A first fragment with bytes `a` to `b`, of another datagram than the one in progress if any. */
  lemma FirstStored(s: State, ident: u16, a: nat, data: seq<u8>)
    requires Good(s) && (!s.active || s.ident != ident) && |data| <= MAX_FRAME && a % 8 == 0 && a < REASM_MAX
    requires a + |data| <= REASM_MAX
    ensures var (s1, out) := Deliver(s, RawFragment(ident, a, true, data));
            && out == Stored && s1.active && s1.ident == ident && !s1.totalKnown
            && forall i :: 0 <= i < REASM_MAX ==> (s1.seen[i] <==> a <= i < a + |data|)
  {
    RawDelivered(s, ident, a, true, data);
  }

  /** Bytes 16 to 23, then a last fragment with bytes 8 to 15: complete as a datagram of 16 bytes, although
      bytes 0 to 7 never arrived. */
  lemma HoleExample(s: State, ident: u16, x: seq<u8>, y: seq<u8>)
    requires Good(s) && (!s.active || s.ident != ident) && |x| == |y| == 8
    ensures var (s1, out1) := Deliver(s, RawFragment(ident, 16, true, x));
            var (s2, out2) := Deliver(s1, RawFragment(ident, 8, false, y));
            out1 == Stored && out2.Completed? && s2.total == 16 && !s2.seen[0]
  {
    FirstStored(s, ident, 16, x);
    var s1 := Deliver(s, RawFragment(ident, 16, true, x)).0;
    RawDelivered(s1, ident, 8, false, y);
    CountRange(Stores(s1, Frag(8, 8, false, ident), y).seen, 8, 24);
  }

  /** Bytes 0 to 23, then a last fragment with bytes 8 to 15: all 16 bytes are there, and it waits on. */
  lemma RefusedExample(s: State, ident: u16, x: seq<u8>, y: seq<u8>)
    requires Good(s) && (!s.active || s.ident != ident) && |x| == 24 && |y| == 8
    ensures var (s1, out1) := Deliver(s, RawFragment(ident, 0, true, x));
            var (s2, out2) := Deliver(s1, RawFragment(ident, 8, false, y));
            out1 == out2 == Stored && s2.totalKnown && s2.total == 16 && forall i :: 0 <= i < 16 ==> s2.seen[i]
  {
    FirstStored(s, ident, 0, x);
    var s1 := Deliver(s, RawFragment(ident, 0, true, x)).0;
    RawDelivered(s1, ident, 8, false, y);
    CountRange(Stores(s1, Frag(8, 8, false, ident), y).seen, 0, 24);
  }

  // --- malformed lengths ------------------------------------------------------------------------------

  /** The source panics on exactly these frames: a fragment whose total length is below its header length,
      or whose header is cut off by the end of the frame. */
  lemma MalformedIff(s: State, frame: seq<u8>)
    requires Good(s)
    ensures Deliver(s, frame).1 == Malformed <==>
            && ParseFragment(frame).Some? && ParseFragment(frame).value.offset <= REASM_MAX
            && (Be16(frame, 16) as int < HeaderLen(frame) || |frame| < ETH_HDR + HeaderLen(frame))
  {
  }

  /** A fragment whose total length field says 8, less than its header. */
  lemma MalformedExample(s: State, ident: u16)
    requires Good(s)
    ensures Deliver(s, PutBe16(RawFragment(ident, 0, true, []), 16, 8)).1 == Malformed
  {
    FieldParts(0, true);
    var r := RawFragment(ident, 0, true, []);
    var r' := PutBe16(r, 16, 8);
    assert Be16(r, 18) == ident && Be16(r, 20) == FragField(0, true) && r[12] == 8 && r[13] == 0 && r[14] == 0x45;
    assert Be16(r', 16) == 8 && Be16(r', 20) == Be16(r, 20) && Be16(r', 18) == ident;
    assert r'[12] == 8 && r'[13] == 0 && r'[14] == 0x45;
    MalformedIff(s, r');
  }
}
