/** Fragmentation and reassembly undo each other: whatever the order of arrival and however often a
    fragment is repeated, the datagram is rebuilt exactly when its last missing fragment arrives. */
module IpRoundTrip {
  import opened Wrappers
  import opened DiskFormat
  import opened InetSum
  import opened IpFragment
  import opened IpReasm

  const CHUNK := 1480

  /** An over-long IPv4 frame with a 20-byte header and a payload the reassembler can hold. */
  predicate Datagram(f: seq<u8>) {
    MAX_FRAME < |f| <= HDR + REASM_MAX && f[12] == 8 && f[13] == 0 && f[14] == 0x45
  }

  function Payload(f: seq<u8>): (r: seq<u8>)
    requires Datagram(f)
  {
    f[HDR..]
  }

  function Ident(f: seq<u8>): (r: u16)
    requires Datagram(f)
  {
    Be16(f, 18)
  }

  /** How many fragments there are. */
  function Pieces(f: seq<u8>): (r: nat)
    requires Datagram(f)
    ensures r >= 2 && (r - 1) * CHUNK < |Payload(f)| <= r * CHUNK
  {
    (|Payload(f)| + CHUNK - 1) / CHUNK
  }

  function Piece(f: seq<u8>, k: nat): (r: seq<u8>)
    requires Datagram(f) && k < Pieces(f)
  {
    Fragment(f, k * CHUNK)
  }

  lemma DatagramSends(f: seq<u8>)
    requires Datagram(f)
    ensures Sendable(f) && HeaderLen(f) == IP_HDR && MaxChunk(IP_HDR) == CHUNK && PayloadOf(f) == Payload(f)
  {
  }

  /** The sender's output is the list of pieces. */
  lemma {:induction false} FragmentsArePieces(f: seq<u8>, k: nat)
    requires Datagram(f) && k <= Pieces(f)
    ensures Sendable(f)
    ensures var from := if k < Pieces(f) then k * CHUNK else |Payload(f)|;
            var rest := FragmentsFrom(f, from);
            |rest| == Pieces(f) - k && forall j :: k <= j < Pieces(f) ==> rest[j - k] == Piece(f, j)
    decreases Pieces(f) - k
  {
    DatagramSends(f);
    if k < Pieces(f) {
      FragmentsArePieces(f, k + 1);
    }
  }

  // --- what one piece carries ---------------------------------------------------------------------

  /** A header that differs from the original only in the fields fragmentation rewrites. */
  ghost predicate HeaderLike(f: seq<u8>, h: seq<u8>)
    requires Datagram(f)
  {
    |h| == HDR && forall i :: 0 <= i < HDR && i !in {16, 17, 20, 21, 24, 25} ==> h[i] == f[i]
  }

  lemma PieceBytes(f: seq<u8>, k: nat)
    requires Datagram(f) && k < Pieces(f)
    ensures var p, off := Piece(f, k), k * CHUNK;
            var chunk := if |Payload(f)| - off < CHUNK then |Payload(f)| - off else CHUNK;
            && |p| == HDR + chunk && HeaderLike(f, p[..HDR]) && p[HDR..] == Payload(f)[off..off + chunk]
            && Be16(p, 16) as int == IP_HDR + chunk
            && Be16(p, 20) == FragField(off, k + 1 < Pieces(f))
  {
    DatagramSends(f);
    var off := k * CHUNK;
    var h := FragHeader(f, off);
    var h' := PutBe16(h, 10, Checksum(h));
    var p := Piece(f, k);
    assert p[ETH_HDR..HDR] == h';
    assert forall i :: ETH_HDR <= i < HDR ==> p[i] == h'[i - ETH_HDR];
    assert Be16(p, 16) == Be16(h', 2) && Be16(p, 20) == Be16(h', 6);
    assert (off + ChunkAt(f, off) < |Payload(f)|) == (k + 1 < Pieces(f));
  }

  lemma PieceParses(f: seq<u8>, k: nat)
    requires Datagram(f) && k < Pieces(f)
    ensures var p, off := Piece(f, k), k * CHUNK;
            var chunk := if |Payload(f)| - off < CHUNK then |Payload(f)| - off else CHUNK;
            && ParseFragment(p) == Some(Frag(off, chunk, k + 1 < Pieces(f), Ident(f)))
            && HeaderLen(p) == IP_HDR && PayloadEnd(p) == |p| == HDR + chunk
  {
    PieceBytes(f, k);
    var p, off := Piece(f, k), k * CHUNK;
    var h := p[..HDR];
    assert p[12] == h[12] && p[13] == h[13] && p[14] == h[14] && p[18] == h[18] && p[19] == h[19];
    FieldParts(off, k + 1 < Pieces(f));
  }

  lemma FieldParts(off: nat, more: bool)
    requires off % 8 == 0 && off < REASM_MAX
    ensures var field: int := FragField(off, more);
            (field / 0x2000 % 2 == 1) == more && field % 0x2000 * 8 == off
  {
  }

  // --- the reassembler's state after some pieces ---------------------------------------------------

  /** Exactly the pieces in `have` have been stored. */
  ghost predicate Holds(f: seq<u8>, s: State, have: set<nat>)
    requires Datagram(f)
  {
    && Good(s) && s.active && s.ident == Ident(f) && HeaderLike(f, s.hdr)
    && (forall i :: 0 <= i < REASM_MAX ==> (s.seen[i] <==> i < |Payload(f)| && i / CHUNK in have))
    && (forall i :: 0 <= i < |Payload(f)| && s.seen[i] ==> s.buf[i] == Payload(f)[i])
    && (s.totalKnown <==> Pieces(f) - 1 in have) && (s.totalKnown ==> s.total == |Payload(f)|)
  }

  ghost predicate All(f: seq<u8>, have: set<nat>)
    requires Datagram(f)
  {
    forall k :: 0 <= k < Pieces(f) ==> k in have
  }

  lemma StorePiece(f: seq<u8>, s: State, have: set<nat>, k: nat)
    requires Datagram(f) && k < Pieces(f) && Holds(f, s, have)
    ensures var off := k * CHUNK;
            var chunk := if |Payload(f)| - off < CHUNK then |Payload(f)| - off else CHUNK;
            Holds(f, Stores(s, Frag(off, chunk, k + 1 < Pieces(f), Ident(f)), Payload(f)[off..off + chunk]), have + {k})
  {
  }

  /** The completion test holds exactly when every piece is there. */
  lemma CompleteIffAll(f: seq<u8>, s: State, have: set<nat>)
    requires Datagram(f) && Holds(f, s, have)
    ensures IsComplete(s) <==> All(f, have)
    ensures IsComplete(s) ==> s.buf[..s.total] == Payload(f)
  {
    var n := |Payload(f)|;
    if s.totalKnown {
      CountFull(s.seen, n);
      if All(f, have) {
        forall i | 0 <= i < n ensures s.seen[i] {
        }
      }
      if forall i :: 0 <= i < n ==> s.seen[i] {
        forall k | 0 <= k < Pieces(f) ensures k in have {
          assert s.seen[k * CHUNK] && k * CHUNK / CHUNK == k;
        }
      }
    }
  }

  /** Whichever fragment's header was saved, the rebuilt frame is the original with a correct length
      and cleared fragment and checksum fields. */
  lemma RebuiltHeader(f: seq<u8>, h: seq<u8>)
    requires Datagram(f) && HeaderLike(f, h)
    ensures Rebuild(h, Payload(f)) == Rebuild(f[..HDR], Payload(f))
  {
  }

  /** One delivery. */
  lemma DeliverPiece(f: seq<u8>, s: State, have: set<nat>, k: nat)
    requires Datagram(f) && k < Pieces(f) && Good(s)
    requires Holds(f, s, have) || (have == {} && (!s.active || s.ident != Ident(f)))
    ensures var (s', out) := Deliver(s, Piece(f, k));
            if All(f, have + {k}) then out == Completed(Rebuild(f[..HDR], Payload(f))) && !s'.active
            else out == Stored && Holds(f, s', have + {k})
  {
    PieceBytes(f, k);
    PieceParses(f, k);
    var p, off := Piece(f, k), k * CHUNK;
    var chunk := |p| - HDR;
    var fr := Frag(off, chunk, k + 1 < Pieces(f), Ident(f));
    var s0 := if !s.active || s.ident != Ident(f) then Begun(s, Ident(f), p) else s;
    assert Holds(f, s0, have);
    StorePiece(f, s0, have, k);
    assert p[HDR..PayloadEnd(p)] == p[HDR..];
    var s1 := Stores(s0, fr, p[HDR..]);
    CompleteIffAll(f, s1, have + {k});
    RebuiltHeader(f, s1.hdr);
  }

  // --- any order, with repeats ------------------------------------------------------------------------

  function DeliverAll(s: State, frames: seq<seq<u8>>): (r: (State, seq<Outcome>))
    requires Good(s)
    ensures Good(r.0) && |r.1| == |frames|
  {
    if frames == [] then (s, [])
    else
      var (s1, outs) := DeliverAll(s, frames[..|frames| - 1]);
      var (s2, out) := Deliver(s1, frames[|frames| - 1]);
      (s2, outs + [out])
  }

  function Arrivals(f: seq<u8>, order: seq<nat>): (r: seq<seq<u8>>)
    requires Datagram(f) && forall j :: 0 <= j < |order| ==> order[j] < Pieces(f)
    ensures |r| == |order|
  {
    seq(|order|, j requires 0 <= j < |order| => Piece(f, order[j]))
  }

  function Seen(order: seq<nat>): (r: set<nat>) { set j | 0 <= j < |order| :: order[j] }

  lemma DeliverAllLast(f: seq<u8>, s: State, order: seq<nat>)
    requires Datagram(f) && Good(s) && order != [] && forall j :: 0 <= j < |order| ==> order[j] < Pieces(f)
    ensures var before := DeliverAll(s, Arrivals(f, order[..|order| - 1]));
            var last := Deliver(before.0, Piece(f, order[|order| - 1]));
            DeliverAll(s, Arrivals(f, order)) == (last.0, before.1 + [last.1])
  {
    assert Arrivals(f, order)[..|order| - 1] == Arrivals(f, order[..|order| - 1]);
  }

  /** One piece is never the whole datagram. */
  lemma AtLeastTwo(f: seq<u8>, order: seq<nat>)
    requires Datagram(f) && All(f, Seen(order))
    ensures |order| >= 2
  {
    assert 0 in Seen(order) && 1 in Seen(order);
  }

  /** After deliveries that leave something missing: all stored, and the state holds those pieces. */
  ghost predicate Waiting(f: seq<u8>, r: (State, seq<Outcome>), have: set<nat>)
    requires Datagram(f)
  {
    Holds(f, r.0, have) && forall j :: 0 <= j < |r.1| ==> r.1[j] == Stored
  }

  lemma WaitingMore(f: seq<u8>, r: (State, seq<Outcome>), have: set<nat>, k: nat)
    requires Datagram(f) && k < Pieces(f) && Good(r.0) && !All(f, have + {k})
    requires Waiting(f, r, have) || (have == {} && r.1 == [] && (!r.0.active || r.0.ident != Ident(f)))
    ensures var last := Deliver(r.0, Piece(f, k));
            Waiting(f, (last.0, r.1 + [last.1]), have + {k})
  {
    DeliverPiece(f, r.0, have, k);
  }

  /** As long as a piece is missing, every delivery is stored and nothing is lost. */
  lemma {:induction false} PartialArrival(f: seq<u8>, s: State, order: seq<nat>)
    requires Datagram(f) && Good(s) && (!s.active || s.ident != Ident(f))
    requires forall j :: 0 <= j < |order| ==> order[j] < Pieces(f)
    requires !All(f, Seen(order)) && order != []
    ensures Waiting(f, DeliverAll(s, Arrivals(f, order)), Seen(order))
    decreases |order|
  {
    var m := |order| - 1;
    var init := order[..m];
    SeenLast(order);
    DeliverAllLast(f, s, order);
    if init != [] {
      PartialArrival(f, s, init);
    }
    WaitingMore(f, DeliverAll(s, Arrivals(f, init)), Seen(init), order[m]);
  }

  lemma SeenLast(order: seq<nat>)
    requires order != []
    ensures Seen(order) == Seen(order[..|order| - 1]) + {order[|order| - 1]}
  {
  }

  /** Fragment and reassemble: deliver the sender's fragments in any order, with any repeats. The
      delivery that supplies the last missing fragment, and none before it, completes, and yields a frame
      with all the payload of the original and its header, but for the length, which is set, and the
      fragment and checksum fields, which are cleared. */
  lemma RoundTrip(f: seq<u8>, s: State, order: seq<nat>)
    requires Datagram(f) && Good(s) && (!s.active || s.ident != Ident(f)) && order != []
    requires forall j :: 0 <= j < |order| ==> order[j] < Pieces(f)
    requires All(f, Seen(order)) && !All(f, Seen(order[..|order| - 1]))
    ensures Sendable(f) && |FragmentsFrom(f, 0)| == Pieces(f)
    ensures forall j :: 0 <= j < |order| ==> Arrivals(f, order)[j] == FragmentsFrom(f, 0)[order[j]]
    ensures var (s', outs) := DeliverAll(s, Arrivals(f, order));
            && !s'.active && (forall j :: 0 <= j < |order| - 1 ==> outs[j] == Stored)
            && outs[|order| - 1].Completed?
            && var x := outs[|order| - 1].frame;
               && |x| == |f| && x[34..] == f[34..]
               && x[16] as int * 256 + x[17] as int == |f| - 14
               && x[20] == x[21] == x[24] == x[25] == 0
               && forall i :: 0 <= i < 34 && i !in {16, 17, 20, 21, 24, 25} ==> x[i] == f[i]
  {
    SentPieces(f, order);
    Completion(f, s, order);
    Restored(f);
  }

  lemma Restored(f: seq<u8>)
    requires Datagram(f)
    ensures var x := Rebuild(f[..HDR], f[HDR..]);
            && |x| == |f| && x[34..] == f[34..]
            && x[16] as int * 256 + x[17] as int == |f| - 14
            && x[20] == x[21] == x[24] == x[25] == 0
            && forall i :: 0 <= i < 34 && i !in {16, 17, 20, 21, 24, 25} ==> x[i] == f[i]
  {
    RebuiltBytes(f[..HDR], f[HDR..]);
    assert forall i :: 0 <= i < HDR ==> f[..HDR][i] == f[i];
  }

  lemma SentPieces(f: seq<u8>, order: seq<nat>)
    requires Datagram(f) && forall j :: 0 <= j < |order| ==> order[j] < Pieces(f)
    ensures Sendable(f) && |FragmentsFrom(f, 0)| == Pieces(f)
    ensures forall j :: 0 <= j < |order| ==> Arrivals(f, order)[j] == FragmentsFrom(f, 0)[order[j]]
  {
    FragmentsArePieces(f, 0);
    var sent := FragmentsFrom(f, 0);
    forall j | 0 <= j < |order| ensures Arrivals(f, order)[j] == sent[order[j]] {
      assert sent[order[j] - 0] == Piece(f, order[j]);
    }
  }

  lemma Completion(f: seq<u8>, s: State, order: seq<nat>)
    requires Datagram(f) && Good(s) && (!s.active || s.ident != Ident(f)) && order != []
    requires forall j :: 0 <= j < |order| ==> order[j] < Pieces(f)
    requires All(f, Seen(order)) && !All(f, Seen(order[..|order| - 1]))
    ensures var (s', outs) := DeliverAll(s, Arrivals(f, order));
            && outs[|order| - 1] == Completed(Rebuild(f[..HDR], f[HDR..])) && !s'.active
            && forall j :: 0 <= j < |order| - 1 ==> outs[j] == Stored
  {
    var m := |order| - 1;
    var init := order[..m];
    AtLeastTwo(f, order);
    PartialArrival(f, s, init);
    var r := DeliverAll(s, Arrivals(f, init));
    assert Waiting(f, r, Seen(init));
    SeenLast(order);
    DeliverPiece(f, r.0, Seen(init), order[m]);
    DeliverAllLast(f, s, order);
  }
}
