/** IPv4 reassembly (kernel/src/ip_reasm.rs with frame/ip_reassembly.frs): one datagram at a time,
    a byte buffer, a coverage bitmap with one bit per payload byte, and the count of covered bytes
    that decides completion. */
module IpReasm {
  import opened Wrappers
  import opened DiskFormat
  import opened InetSum
  import opened IpFragment

  const REASM_MAX := 8192
  const HDR := 34

  /** The parsed summary of one fragment. */
  datatype Frag = Frag(offset: nat, len: nat, more: bool, ident: u16)

  /** End of the fragment's payload in the frame: its IP total length, cut to what was received. */
  function PayloadEnd(frame: seq<u8>): (r: nat)
    requires |frame| >= HDR
  {
    var total: int := Be16(frame, 16);
    if ETH_HDR + total < |frame| then ETH_HDR + total else |frame|
  }

  /** `parse_fragment`: IPv4 frames with "more fragments" set or a non-zero offset. */
  function ParseFragment(frame: seq<u8>): (r: Option<Frag>)
    ensures r.Some? ==> |frame| >= HDR && (r.value.more || r.value.offset > 0)
  {
    if |frame| < HDR || frame[12] != 8 || frame[13] != 0 || frame[14] / 16 != 4 then None
    else
      var field: int := Be16(frame, 20);
      var more, offset := field / 0x2000 % 2 == 1, field % 0x2000 * 8;
      if !more && offset == 0 then None
      else
        var start := ETH_HDR + HeaderLen(frame);
        Some(Frag(offset, if PayloadEnd(frame) > start then PayloadEnd(frame) - start else 0, more, Be16(frame, 18)))
  }

  /** Which frames are fragments, and what is read from one, byte by byte. */
  lemma FragmentFields(frame: seq<u8>)
    requires |frame| >= 34
    ensures var p, flags: int, total := ParseFragment(frame), frame[20], frame[16] as int * 256 + frame[17] as int;
            var more, offset := flags / 32 % 2 == 1, (flags % 32 * 256 + frame[21] as int) * 8;
            var start, end := 14 + frame[14] as int % 16 * 4, if 14 + total <= |frame| then 14 + total else |frame|;
            && (p.Some? <==> frame[12] == 8 && frame[13] == 0 && 0x40 <= frame[14] < 0x50 && (more || offset > 0))
            && (p.Some? ==>
                 && p.value.more == more && p.value.offset == offset
                 && p.value.ident as int == frame[18] as int * 256 + frame[19] as int
                 && p.value.len == if start <= end then end - start else 0)
  {
    FlagBits(frame[20] as int, frame[21] as int);
  }

  lemma FlagBits(hi: nat, lo: nat)
    requires hi < 256 && lo < 256
    ensures var v := hi * 256 + lo; v / 0x2000 % 2 == hi / 32 % 2 && v % 0x2000 == hi % 32 * 256 + lo
  {
  }

  // --- counting covered bytes -----------------------------------------------------------------

  function CountTrue(s: seq<bool>): (r: nat)
    ensures r <= |s|
  {
    if s == [] then 0 else (if s[|s| - 1] then 1 else 0) + CountTrue(s[..|s| - 1])
  }

  lemma {:induction false} CountSet(s: seq<bool>, i: nat)
    requires i < |s|
    ensures CountTrue(s[i := true]) == CountTrue(s) + if s[i] then 0 else 1
  {
    var n := |s| - 1;
    if i == n {
      assert s[i := true][..n] == s[..n];
    } else {
      assert s[i := true][..n] == s[..n][i := true];
      CountSet(s[..n], i);
    }
  }

  /** Coverage that stays below `total` has `total` bytes exactly when nothing below is missing. */
  lemma {:induction false} CountFull(s: seq<bool>, total: nat)
    requires total <= |s| && forall i :: total <= i < |s| ==> !s[i]
    ensures CountTrue(s) <= total
    ensures CountTrue(s) == total <==> forall i :: 0 <= i < total ==> s[i]
    decreases |s|
  {
    if |s| > 0 {
      var n := |s| - 1;
      var init := s[..n];
      assert forall i :: 0 <= i < n ==> init[i] == s[i];
      if total <= n {
        CountFull(init, total);
      } else {
        CountFull(init, n);
      }
    }
  }

  lemma {:induction false} CountZero(s: seq<bool>)
    requires forall i :: 0 <= i < |s| ==> !s[i]
    ensures CountTrue(s) == 0
  {
    if s != [] {
      CountZero(s[..|s| - 1]);
    }
  }

  // --- the state ----------------------------------------------------------------------------------

  /** Abstract reassembly state; `seen` says which payload bytes have arrived. */
  datatype State = State(
    active: bool, ident: u16, totalKnown: bool, total: nat, seen: seq<bool>, buf: seq<u8>, hdr: seq<u8>)

  datatype Outcome = Ignored | Malformed | Dropped | Stored | Completed(frame: seq<u8>)

  function Begun(s: State, ident: u16, frame: seq<u8>): (r: State)
    requires |frame| >= HDR
  {
    State(true, ident, false, 0, seq(REASM_MAX, _ => false), s.buf, frame[..HDR])
  }

  /** `store`: the bytes are copied and marked, the last fragment fixes the total length. */
  function Stores(s: State, f: Frag, data: seq<u8>): (r: State)
    requires |s.seen| == |s.buf| == REASM_MAX && f.offset + |data| <= REASM_MAX
    ensures |r.seen| == |r.buf| == REASM_MAX
  {
    State(s.active, s.ident, s.totalKnown || !f.more, if f.more then s.total else f.offset + |data|,
          seq(REASM_MAX, i requires 0 <= i < REASM_MAX => s.seen[i] || f.offset <= i < f.offset + |data|),
          s.buf[..f.offset] + data + s.buf[f.offset + |data|..], s.hdr)
  }

  predicate IsComplete(s: State) { s.totalKnown && CountTrue(s.seen) == s.total }

  /** `on_complete`: the saved header with the length fixed and the fragment and checksum fields
      cleared, then the payload. */
  function Rebuild(hdr: seq<u8>, payload: seq<u8>): (r: seq<u8>)
    requires |hdr| == HDR && |payload| <= REASM_MAX
  {
    PutBe16(PutBe16(PutBe16(hdr, 16, IP_HDR + |payload|), 20, 0), 24, 0) + payload
  }

  /** The rebuilt frame, byte by byte. */
  lemma RebuiltBytes(hdr: seq<u8>, payload: seq<u8>)
    requires |hdr| == HDR && |payload| <= REASM_MAX
    ensures var x := Rebuild(hdr, payload);
            && |x| == 34 + |payload| && x[34..] == payload
            && x[16] as int * 256 + x[17] as int == 20 + |payload|
            && x[20] == x[21] == x[24] == x[25] == 0
            && forall i :: 0 <= i < 34 && i !in {16, 17, 20, 21, 24, 25} ==> x[i] == hdr[i]
  {
  }

  predicate Good(s: State) {
    |s.seen| == |s.buf| == REASM_MAX && |s.hdr| == HDR && (s.totalKnown ==> s.total <= REASM_MAX)
  }

  function Deactivated(s: State): (r: State) { State(false, s.ident, s.totalKnown, s.total, s.seen, s.buf, s.hdr) }

  /** What the FSM does with a fragment: begin if this is another datagram, store, and complete if
      nothing is missing. */
  function Taken(s: State, f: Frag, frame: seq<u8>, data: seq<u8>): (r: (State, Outcome))
    requires Good(s) && |frame| >= HDR && f.offset + |data| <= REASM_MAX
    ensures Good(r.0)
  {
    var s0 := if !s.active || s.ident != f.ident then Begun(s, f.ident, frame) else s;
    var s1 := Stores(s0, f, data);
    if IsComplete(s1) then (Deactivated(s1), Completed(Rebuild(s1.hdr, s1.buf[..s1.total]))) else (s1, Stored)
  }

  /** `on_fragment` as a function. A payload range that ends before it starts makes the source panic. */
  function Deliver(s: State, frame: seq<u8>): (r: (State, Outcome))
    requires Good(s)
    ensures Good(r.0)
  {
    var p := ParseFragment(frame);
    if p.None? then (s, Ignored)
    else
      var f, start := p.value, ETH_HDR + HeaderLen(frame);
      if f.offset + f.len > REASM_MAX then (Deactivated(s), Dropped)
      else if PayloadEnd(frame) < start then (s, Malformed)
      else
        Taken(s, f, frame, frame[start..PayloadEnd(frame)])
  }

  /** A frame that is no fragment changes nothing. A fragment too far out drops the datagram in progress, and
      any other with data in the frame is stored. */
  lemma DeliverKind(s: State, frame: seq<u8>)
    requires Good(s)
    ensures var (s', out) := Deliver(s, frame);
            && (out == Ignored <==> ParseFragment(frame) == None)
            && (out == Ignored || out == Malformed ==> s' == s)
            && (out == Dropped ==> s' == State(false, s.ident, s.totalKnown, s.total, s.seen, s.buf, s.hdr))
            && (ParseFragment(frame).Some? ==>
                 var f := ParseFragment(frame).value;
                 && (out == Dropped <==> f.offset + f.len > 8192)
                 && (f.len > 0 && f.offset + f.len <= 8192 ==> out == Stored || out.Completed?))
  {
  }

  /** Storing puts the data at its offset and leaves the other bytes; the first fragment of a datagram clears
      the coverage and saves the header, the last fixes the total length. The datagram is handed up, and no
      longer in progress, when the count of covered bytes is the total. */
  ghost predicate StoredAt(s: State, s': State, f: Frag, frame: seq<u8>, start: nat, done: bool)
    requires Good(s) && Good(s') && start + f.len <= |frame| && f.offset + f.len <= 8192 && |frame| >= 34
  {
    var same := s.active && s.ident == f.ident;
    && s'.ident == f.ident && s'.hdr == (if same then s.hdr else frame[..34])
    && (forall i :: f.offset <= i < f.offset + f.len ==>
         s'.seen[i] && s'.buf[i] == frame[start + (i - f.offset)])
    && (forall i :: 0 <= i < 8192 && !(f.offset <= i < f.offset + f.len) ==>
         s'.buf[i] == s.buf[i] && (s'.seen[i] <==> same && s.seen[i]))
    && (s'.totalKnown <==> !f.more || (same && s.totalKnown))
    && (s'.totalKnown ==> s'.total == if f.more then s.total else f.offset + f.len)
    && (done <==> s'.totalKnown && CountTrue(s'.seen) == s'.total) && (s'.active <==> !done)
  }

  lemma DeliverStores(s: State, frame: seq<u8>, f: Frag, start: nat)
    requires Good(s) && (Deliver(s, frame).1 == Stored || Deliver(s, frame).1.Completed?)
    requires ParseFragment(frame) == Some(f) && start == 14 + frame[14] as int % 16 * 4
    ensures start + f.len <= |frame| && f.offset + f.len <= 8192
    ensures StoredAt(s, Deliver(s, frame).0, f, frame, start, Deliver(s, frame).1.Completed?)
  {
    DeliverTakes(s, frame, f, start);
    TakenStores(s, f, frame, start);
  }

  lemma DeliverTakes(s: State, frame: seq<u8>, f: Frag, start: nat)
    requires Good(s) && (Deliver(s, frame).1 == Stored || Deliver(s, frame).1.Completed?)
    requires ParseFragment(frame) == Some(f) && start == ETH_HDR + HeaderLen(frame)
    ensures start + f.len <= |frame| && f.offset + f.len <= REASM_MAX
    ensures Deliver(s, frame) == Taken(s, f, frame, frame[start..start + f.len])
  {
  }

  lemma TakenStores(s: State, f: Frag, frame: seq<u8>, start: nat)
    requires Good(s) && start + f.len <= |frame| && f.offset + f.len <= REASM_MAX && |frame| >= HDR
    ensures var (s', out) := Taken(s, f, frame, frame[start..start + f.len]);
            StoredAt(s, s', f, frame, start, out.Completed?)
  {
  }

  /** The frame handed up is the saved header with its length set and its fragment and checksum fields
      cleared, and behind it the buffered payload. */
  lemma CompletedFrame(s: State, frame: seq<u8>)
    requires Good(s) && Deliver(s, frame).1.Completed?
    ensures var (s', out) := Deliver(s, frame);
            && |out.frame| == 34 + s'.total && out.frame[34..] == s'.buf[..s'.total]
            && out.frame[16] as int * 256 + out.frame[17] as int == 20 + s'.total
            && out.frame[20] == out.frame[21] == out.frame[24] == out.frame[25] == 0
            && forall i :: 0 <= i < 34 && i !in {16, 17, 20, 21, 24, 25} ==> out.frame[i] == s'.hdr[i]
  {
    var s' := Deliver(s, frame).0;
    RebuiltBytes(s'.hdr, s'.buf[..s'.total]);
  }

  class Reassembler {
    var active: bool
    var ident: u16
    var totalKnown: bool
    var total: nat
    var covered: nat
    var hdr: seq<u8>
    const buf: array<u8>
    const coverage: array<u8>
    ghost var seen: seq<bool>

    ghost function View(): (s: State)
      reads this, buf
    {
      State(active, ident, totalKnown, total, seen, buf[..], hdr)
    }

    /** The bitmap holds `seen`, and `covered` counts it. */
    ghost predicate Valid()
      reads this, buf, coverage
    {
      && buf.Length == REASM_MAX && coverage.Length == REASM_MAX / 8 && buf != coverage
      && Good(View()) && covered == CountTrue(seen)
      && forall i :: 0 <= i < REASM_MAX ==> seen[i] == CovBit(i)
    }

    predicate CovBit(i: nat)
      requires coverage.Length == REASM_MAX / 8 && i < REASM_MAX
      reads coverage
    {
      Bit(coverage[i / 8], i % 8)
    }

    constructor ()
      ensures Valid() && !active && fresh(buf) && fresh(coverage)
    {
      active, ident, totalKnown, total, covered := false, 0, false, 0, 0;
      hdr := seq(HDR, _ => 0);
      buf := new u8[REASM_MAX](_ => 0);
      coverage := new u8[REASM_MAX / 8](_ => 0);
      seen := seq(REASM_MAX, _ => false);
      new;
      CountZero(seen);
      ZeroBits();
    }

    /** `begin` */
    method Begin(id: u16, frame: seq<u8>)
      requires Valid() && |frame| >= HDR
      modifies this, coverage
      ensures Valid() && View() == Begun(old(View()), id, frame)
    {
      forall i | 0 <= i < coverage.Length {
        coverage[i] := 0;
      }
      ZeroBits();
      hdr := frame[..HDR];
      active, ident, totalKnown, total, covered := true, id, false, 0, 0;
      seen := Begun(View(), id, frame).seen;
      CountZero(seen);
    }

    /** `cov_set` */
    method Mark(i: nat)
      requires buf.Length == REASM_MAX && coverage.Length == REASM_MAX / 8 && i < REASM_MAX
      modifies coverage
      ensures forall j :: 0 <= j < REASM_MAX ==> CovBit(j) == (j == i || old(CovBit(j)))
    {
      coverage[i / 8] := PutByteBit(coverage[i / 8], i % 8, true);
    }

    /** The loop body of `store`. */
    method StoreByte(idx: nat, byte: u8)
      requires Valid() && idx < REASM_MAX
      modifies this`covered, this`seen, buf, coverage
      ensures Valid()
      ensures var s := old(View());
              View() == State(s.active, s.ident, s.totalKnown, s.total, s.seen[idx := true], s.buf[idx := byte], s.hdr)
    {
      CountSet(seen, idx);
      buf[idx] := byte;
      if !CovBit(idx) {
        Mark(idx);
        covered := covered + 1;
      }
      seen := seen[idx := true];
    }

    /** `store`: one byte at a time, counting each byte once. */
    method Store(f: Frag, data: seq<u8>)
      requires Valid() && f.offset + |data| <= REASM_MAX
      modifies this`covered, this`seen, this`totalKnown, this`total, buf, coverage
      ensures Valid() && View() == Stores(old(View()), f, data)
    {
      ghost var s, more := View(), Frag(f.offset, f.len, true, f.ident);
      StoreNone(s, more);
      for i := 0 to |data|
        invariant Valid() && View() == Stores(s, more, data[..i])
      {
        StoreOne(s, more, data, i);
        StoreByte(f.offset + i, data[i]);
      }
      StoreLast(s, f, data);
      if !f.more {
        totalKnown := true;
        total := f.offset + |data|;
      }
    }

    /** `on_fragment` */
    method OnFragment(frame: seq<u8>) returns (out: Outcome)
      requires Valid()
      modifies this, buf, coverage
      ensures Valid() && (View(), out) == Deliver(old(View()), frame)
    {
      var p := ParseFragment(frame);
      if p.None? {
        return Ignored;
      }
      var f := p.value;
      var start, end := ETH_HDR + HeaderLen(frame), PayloadEnd(frame);
      if f.offset + f.len > REASM_MAX {
        active := false;
        return Dropped;
      }
      if end < start {
        return Malformed;
      }
      out := Take(f, frame, frame[start..end]);
    }

    /** The FSM's part: begin if this is another datagram, store, and complete if nothing is missing. */
    method Take(f: Frag, frame: seq<u8>, data: seq<u8>) returns (out: Outcome)
      requires Valid() && |frame| >= HDR && f.offset + |data| <= REASM_MAX
      modifies this, buf, coverage
      ensures Valid() && (View(), out) == Taken(old(View()), f, frame, data)
    {
      if !active || ident != f.ident {
        Begin(f.ident, frame);
      }
      Store(f, data);
      if totalKnown && covered == total {
        out := Completed(Rebuild(hdr, buf[..total]));
        active := false;
      } else {
        out := Stored;
      }
    }

    /** `drain_timer` past the deadline, and `on_expired`: the partial datagram is dropped. */
    method Expire()
      requires Valid()
      modifies this`active
      ensures Valid() && View() == Deactivated(old(View()))
    {
      active := false;
    }
  }

  lemma ZeroBits()
    ensures forall k: nat :: !Bit(0, k)
  {
    forall k: nat ensures !Bit(0, k) {
      ZeroBit(k);
    }
  }

  lemma {:induction false} ZeroBit(k: nat)
    ensures !Bit(0, k)
  {
    if k > 0 {
      ZeroBit(k - 1);
    }
  }

  lemma StoreNone(s: State, f: Frag)
    requires |s.seen| == |s.buf| == REASM_MAX && f.offset <= REASM_MAX && f.more
    ensures Stores(s, f, []) == s
  {
  }

  /** The last fragment stores the same bytes and fixes the total. */
  lemma StoreLast(s: State, f: Frag, data: seq<u8>)
    requires |s.seen| == |s.buf| == REASM_MAX && f.offset + |data| <= REASM_MAX
    ensures var m := Stores(s, Frag(f.offset, f.len, true, f.ident), data[..|data|]);
            Stores(s, f, data) ==
            if f.more then m else State(m.active, m.ident, true, f.offset + |data|, m.seen, m.buf, m.hdr)
  {
  }

  /** One more byte stored. */
  lemma StoreOne(s: State, f: Frag, data: seq<u8>, i: nat)
    requires |s.seen| == |s.buf| == REASM_MAX && f.offset + |data| <= REASM_MAX && i < |data| && f.more
    ensures var a, b := Stores(s, f, data[..i]), Stores(s, f, data[..i + 1]);
            b == State(a.active, a.ident, a.totalKnown, a.total, a.seen[f.offset + i := true],
                a.buf[f.offset + i := data[i]], a.hdr)
  {
  }
}
