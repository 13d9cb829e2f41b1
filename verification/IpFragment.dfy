/** `tx_ipv4_fragmented` of kernel/src/net.rs: an over-long IPv4 frame is cut into fragments that
    fit the link (section 3.2 of RFC 791). */
module IpFragment {
  import opened DiskFormat
  import opened InetSum

  const MAX_FRAME := 1514
  const ETH_HDR := 14
  const IP_HDR := 20

  /** IPv4 header length in bytes, from the low nibble of its first byte. */
  function HeaderLen(frame: seq<u8>): (r: nat)
    requires |frame| > ETH_HDR
    ensures r <= 60 && r % 4 == 0
  {
    var b: int := frame[ETH_HDR];
    b % 16 * 4
  }

  function MaxChunk(ihl: nat): (r: nat)
    requires ihl <= 60
    ensures r % 8 == 0 && r > 0 && ETH_HDR + ihl + r <= MAX_FRAME < ETH_HDR + ihl + r + 8
  {
    (MAX_FRAME - ETH_HDR - ihl) / 8 * 8
  }

  /** A frame whose IPv4 header has at least its 20 fixed bytes and whose payload fits the 13-bit
      fragment offsets. */
  predicate Sendable(frame: seq<u8>) {
    MAX_FRAME < |frame| <= 0xFFFF && HeaderLen(frame) >= IP_HDR
  }

  function PayloadOf(frame: seq<u8>): (r: seq<u8>)
    requires Sendable(frame)
  {
    frame[ETH_HDR + HeaderLen(frame)..]
  }

  /** Payload bytes in the fragment that starts at `off`. */
  function ChunkAt(frame: seq<u8>, off: nat): (r: nat)
    requires Sendable(frame) && off < |PayloadOf(frame)|
    ensures 0 < r && off + r <= |PayloadOf(frame)| && ETH_HDR + HeaderLen(frame) + r <= MAX_FRAME
  {
    var rest := |PayloadOf(frame)| - off;
    if rest < MaxChunk(HeaderLen(frame)) then rest else MaxChunk(HeaderLen(frame))
  }

  /** Flags and fragment offset: "more fragments" in bit 13, the offset in 8-byte units below it. */
  function FragField(off: nat, more: bool): (r: u16) {
    (if more then 0x2000 else 0) + off / 8 % 0x2000
  }

  /** The header of the fragment at `off`, before its checksum. */
  function FragHeader(frame: seq<u8>, off: nat): (r: seq<u8>)
    requires Sendable(frame) && off < |PayloadOf(frame)|
    ensures |r| == HeaderLen(frame)
  {
    var ihl, chunk := HeaderLen(frame), ChunkAt(frame, off);
    var h := frame[ETH_HDR..ETH_HDR + ihl];
    PutBe16(PutBe16(PutBe16(h, 2, ihl + chunk), 6, FragField(off, off + chunk < |PayloadOf(frame)|)), 10, 0)
  }

  /** The whole fragment at `off`. */
  function Fragment(frame: seq<u8>, off: nat): (r: seq<u8>)
    requires Sendable(frame) && off < |PayloadOf(frame)|
    ensures |r| == ETH_HDR + HeaderLen(frame) + ChunkAt(frame, off) <= MAX_FRAME
  {
    var h := FragHeader(frame, off);
    frame[..ETH_HDR] + PutBe16(h, 10, Checksum(h)) + PayloadOf(frame)[off..off + ChunkAt(frame, off)]
  }

  /** The fragments from `off` on. */
  function FragmentsFrom(frame: seq<u8>, off: nat): (r: seq<seq<u8>>)
    requires Sendable(frame) && off <= |PayloadOf(frame)|
    decreases |PayloadOf(frame)| - off
  {
    if off == |PayloadOf(frame)| then []
    else [Fragment(frame, off)] + FragmentsFrom(frame, off + ChunkAt(frame, off))
  }

  lemma FragmentsStep(frame: seq<u8>, off: nat, sent: seq<seq<u8>>)
    requires Sendable(frame) && off < |PayloadOf(frame)|
    ensures sent + FragmentsFrom(frame, off) ==
            sent + [Fragment(frame, off)] + FragmentsFrom(frame, off + ChunkAt(frame, off))
  {
  }

  /** `tx_ipv4_fragmented`: the frames handed to the driver. */
  method TxFragmented(frame: seq<u8>) returns (sent: seq<seq<u8>>)
    requires |frame| <= MAX_FRAME || Sendable(frame)
    ensures |frame| <= MAX_FRAME ==> sent == [frame]
    ensures |frame| > MAX_FRAME ==> sent == FragmentsFrom(frame, 0)
  {
    if |frame| <= MAX_FRAME {
      return [frame];
    }
    var ihl := HeaderLen(frame);
    var start := ETH_HDR + ihl;
    var len := |frame| - start;
    var maxChunk := MaxChunk(ihl);
    var off := 0;
    sent := [];
    while off < len
      invariant 0 <= off <= len
      invariant FragmentsFrom(frame, 0) == sent + FragmentsFrom(frame, off)
    {
      var chunk := if len - off < maxChunk then len - off else maxChunk;
      var more := off + chunk < len;
      var out := BuildFragment(frame, start, off, chunk, more);
      FragmentsStep(frame, off, sent);
      sent := sent + [out];
      off := off + chunk;
    }
  }

  /** The loop body: copy header and payload slice, then fix length, fragment field and checksum. */
  method BuildFragment(frame: seq<u8>, start: nat, off: nat, chunk: nat, more: bool) returns (out: seq<u8>)
    requires Sendable(frame) && off < |PayloadOf(frame)| && start == ETH_HDR + HeaderLen(frame)
    requires chunk == ChunkAt(frame, off) && more == (off + chunk < |PayloadOf(frame)|)
    ensures out == Fragment(frame, off)
  {
    ghost var eth, h, data := frame[..ETH_HDR], frame[ETH_HDR..start], PayloadOf(frame)[off..off + chunk];
    out := frame[..start] + frame[start + off..start + off + chunk];
    assert out == eth + h + data;
    out, h := PutField(out, eth, h, data, 2, start - ETH_HDR + chunk);
    out, h := PutField(out, eth, h, data, 6, FragField(off, more));
    out, h := PutField(out, eth, h, data, 10, 0);
    assert out[ETH_HDR..start] == h;
    var csum := ComputeChecksum(out[ETH_HDR..start]);
    out, h := PutField(out, eth, h, data, 10, csum);
  }

  /** Stores a header field in the frame. */
  method PutField(frame: seq<u8>, ghost eth: seq<u8>, ghost h: seq<u8>, ghost data: seq<u8>, o: nat, v: u16)
    returns (out: seq<u8>, ghost h': seq<u8>)
    requires frame == eth + h + data && |eth| == ETH_HDR && o + 2 <= |h|
    ensures h' == PutBe16(h, o, v) && out == eth + h' + data
  {
    PutInHeader(eth, h, data, o, v);
    out, h' := PutBe16(frame, ETH_HDR + o, v), PutBe16(h, o, v);
  }

  /** Storing into the frame at a header position is storing into the header. */
  lemma PutInHeader(eth: seq<u8>, h: seq<u8>, data: seq<u8>, o: nat, v: u16)
    requires |eth| == ETH_HDR && o + 2 <= |h|
    ensures PutBe16(eth + h + data, ETH_HDR + o, v) == eth + PutBe16(h, o, v) + data
  {
  }

  /** Every fragment carries a header checksum that its receiver accepts. */
  lemma FragmentVerifies(frame: seq<u8>, off: nat)
    requires Sendable(frame) && off < |PayloadOf(frame)|
    ensures Checksum(Fragment(frame, off)[ETH_HDR..ETH_HDR + HeaderLen(frame)]) == 0
  {
    var h := FragHeader(frame, off);
    ChecksumVerifies(h, 10);
    assert Fragment(frame, off)[ETH_HDR..ETH_HDR + HeaderLen(frame)] == PutBe16(h, 10, Checksum(h));
  }

  // --- what the fragments carry -----------------------------------------------------------------

  /** The payload bytes of fragments with a header of `ihl` bytes, put one behind the other. */
  function Joined(fragments: seq<seq<u8>>, ihl: nat): (r: seq<u8>) {
    if fragments == [] then []
    else (if |fragments[0]| >= ETH_HDR + ihl then fragments[0][ETH_HDR + ihl..] else []) + Joined(fragments[1..], ihl)
  }

  /** Nothing is lost, repeated or reordered: the fragments' payloads joined are the payload. */
  lemma {:induction false} FragmentsCarryPayload(frame: seq<u8>, off: nat)
    requires Sendable(frame) && off <= |PayloadOf(frame)|
    ensures Joined(FragmentsFrom(frame, off), HeaderLen(frame)) == PayloadOf(frame)[off..]
    decreases |PayloadOf(frame)| - off
  {
    if off < |PayloadOf(frame)| {
      var chunk, rest := ChunkAt(frame, off), FragmentsFrom(frame, off + ChunkAt(frame, off));
      FragmentsCarryPayload(frame, off + chunk);
      CarriesChunk(frame, off);
      JoinedFirst(Fragment(frame, off), rest, HeaderLen(frame));
      SliceOff(PayloadOf(frame), off, chunk);
    }
  }

  lemma CarriesChunk(frame: seq<u8>, off: nat)
    requires Sendable(frame) && off < |PayloadOf(frame)|
    ensures Fragment(frame, off)[ETH_HDR + HeaderLen(frame)..] == PayloadOf(frame)[off..off + ChunkAt(frame, off)]
  {
  }

  lemma JoinedFirst(f: seq<u8>, rest: seq<seq<u8>>, ihl: nat)
    requires |f| >= ETH_HDR + ihl
    ensures Joined([f] + rest, ihl) == f[ETH_HDR + ihl..] + Joined(rest, ihl)
  {
    assert ([f] + rest)[1..] == rest;
  }

  lemma SliceOff(s: seq<u8>, off: nat, n: nat)
    requires off + n <= |s|
    ensures s[off..] == s[off..off + n] + s[off + n..]
  {
  }

  /** The header of a fragment, byte by byte: its own length, "more fragments" on all but the last, its
      offset in 8-byte units; every other field but the checksum is the datagram's. */
  lemma FragmentHeader(frame: seq<u8>, off: nat)
    requires Sendable(frame) && off < |PayloadOf(frame)| && off % 8 == 0
    ensures var f, ihl := Fragment(frame, off), HeaderLen(frame);
            && ETH_HDR + ihl < |f| <= MAX_FRAME
            && f[16] as int * 256 + f[17] as int == |f| - 14
            && f[20] as int / 32 == (if off + |f| - 14 - ihl < |frame| - 14 - ihl then 1 else 0)
            && (f[20] as int % 32 * 256 + f[21] as int) * 8 == off
            && forall i :: 0 <= i < ETH_HDR + ihl && i !in {16, 17, 20, 21, 24, 25} ==> f[i] == frame[i]
  {
    var h := FragHeader(frame, off);
    var f, h' := Fragment(frame, off), PutBe16(h, 10, Checksum(h));
    HeaderFields(frame, off, Checksum(h));
    FieldBytes(off, off + ChunkAt(frame, off) < |PayloadOf(frame)|);
    assert forall i :: 0 <= i < |h'| ==> f[ETH_HDR + i] == h'[i];
    assert f[16] == h'[2] && f[17] == h'[3] && f[20] == h'[6] && f[21] == h'[7];
  }

  lemma FieldBytes(off: nat, more: bool)
    requires off % 8 == 0 && off < 0x1_0000
    ensures var v: int := FragField(off, more);
            v / 256 / 32 == (if more then 1 else 0) && (v / 256 % 32 * 256 + v % 256) * 8 == off
  {
  }

  /** The `k`-th fragment sent: as many full-size fragments are before it as its offset says, and its header
      says "more fragments" exactly if another follows. */
  lemma SentFragment(frame: seq<u8>, k: nat)
    requires Sendable(frame) && k < |FragmentsFrom(frame, 0)|
    ensures var sent, ihl := FragmentsFrom(frame, 0), HeaderLen(frame);
            var f, off := sent[k], k * MaxChunk(ihl);
            && ETH_HDR + ihl < |f| <= MAX_FRAME && off + |f| <= |frame|
            && f[ETH_HDR + ihl..] == frame[ETH_HDR + ihl + off..off + |f|]
            && (f[20] as int % 32 * 256 + f[21] as int) * 8 == off
            && f[20] as int / 32 == (if k + 1 < |sent| then 1 else 0)
  {
    var m, sent := MaxChunk(HeaderLen(frame)), FragmentsFrom(frame, 0);
    FragmentAt(frame, 0, k, m, k * m);
    Times8(k, m);
    FragmentHeader(frame, k * m);
    CarriesChunk(frame, k * m);
  }

  lemma Times8(k: nat, m: nat)
    requires m % 8 == 0
    ensures k * m % 8 == 0
  {
    assert k * m == k * (m / 8) * 8;
  }

  lemma {:induction false} FragmentAt(frame: seq<u8>, off: nat, k: nat, m: nat, at: nat)
    requires Sendable(frame) && off <= |PayloadOf(frame)| && k < |FragmentsFrom(frame, off)|
    requires m == MaxChunk(HeaderLen(frame)) && at == off + k * m
    ensures at < |PayloadOf(frame)| && FragmentsFrom(frame, off)[k] == Fragment(frame, at)
    ensures k + 1 < |FragmentsFrom(frame, off)| <==> at + ChunkAt(frame, at) < |PayloadOf(frame)|
    decreases k
  {
    FirstFragment(frame, off);
    if k == 0 {
      assert at == off;
    } else {
      PrevProduct(k, m);
      FragmentAt(frame, off + m, k - 1, m, at);
    }
  }

  lemma FirstFragment(frame: seq<u8>, off: nat)
    requires Sendable(frame) && off <= |PayloadOf(frame)| && FragmentsFrom(frame, off) != []
    ensures off < |PayloadOf(frame)|
    ensures FragmentsFrom(frame, off) == [Fragment(frame, off)] + FragmentsFrom(frame, off + ChunkAt(frame, off))
    ensures 1 < |FragmentsFrom(frame, off)| <==> off + ChunkAt(frame, off) < |PayloadOf(frame)|
    ensures 1 < |FragmentsFrom(frame, off)| ==> ChunkAt(frame, off) == MaxChunk(HeaderLen(frame))
  {
  }

  lemma PrevProduct(k: nat, m: nat)
    requires k > 0
    ensures k * m == m + (k - 1) * m
  {
  }

  lemma HeaderFields(frame: seq<u8>, off: nat, sum: u16)
    requires Sendable(frame) && off < |PayloadOf(frame)|
    ensures var h, ihl, chunk := PutBe16(FragHeader(frame, off), 10, sum), HeaderLen(frame), ChunkAt(frame, off);
            && h[2] as int * 256 + h[3] as int == ihl + chunk
            && (var v: int := FragField(off, off + chunk < |PayloadOf(frame)|);
                h[6] as int == v / 256 && h[7] as int == v % 256)
            && forall i :: 0 <= i < ihl && i !in {2, 3, 6, 7, 10, 11} ==> h[i] == frame[ETH_HDR + i]
  {
  }
}
