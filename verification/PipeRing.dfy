/** The byte buffer of a pipe (kernel/src/pipe.rs): a ring that is a FIFO queue. */
module PipeRing {
  import opened DiskFormat
  import Ring

  class PipeBuf {
    const buf: array<u8>
    var head: nat
    var tail: nat
    var len: nat
    ghost var queue: seq<u8>
    ghost var accepted: seq<u8>
    ghost var delivered: seq<u8>

    /** The slot `k` places behind `tail` holds byte `k` of the queue; what was accepted since the pipe
        was allocated is what was delivered followed by what is queued. */
    ghost predicate Valid()
      reads this, buf
    {
      && tail < buf.Length && len <= buf.Length && |queue| == len
      && head == Ring.Slot(buf.Length, tail, len)
      && (forall s :: 0 <= s < buf.Length && Ring.Behind(buf.Length, tail, s) < len ==>
           buf[s] == queue[Ring.Behind(buf.Length, tail, s)])
      && accepted == delivered + queue
    }

    constructor (cap: nat)
      requires 0 < cap
      ensures Valid() && queue == [] && accepted == [] && buf.Length == cap && fresh(buf)
    {
      buf := new u8[cap](_ => 0);
      head, tail, len, queue, accepted, delivered := 0, 0, 0, [], [], [];
    }

    /** The reset in `alloc`. */
    method Reset()
      requires Valid()
      modifies this
      ensures Valid() && queue == [] && accepted == [] && delivered == []
    {
      head, tail, len, queue, accepted, delivered := 0, 0, 0, [], [], [];
    }

    /** `write`: takes as many bytes as there is room for. */
    method Write(src: seq<u8>) returns (n: nat)
      requires Valid()
      modifies this, buf
      ensures Valid() && n == (if |src| < buf.Length - old(len) then |src| else buf.Length - old(len))
      ensures queue == old(queue) + src[..n] && accepted == old(accepted) + src[..n] && delivered == old(delivered)
    {
      var room := buf.Length - len;
      n := if |src| < room then |src| else room;
      for i := 0 to n
        invariant Valid() && len == old(len) + i
        invariant queue == old(queue) + src[..i] && accepted == old(accepted) + src[..i] && delivered == old(delivered)
      {
        PutByte(src[i]);
        assert src[..i + 1] == src[..i] + [src[i]];
      }
    }

    method PutByte(b: u8)
      requires Valid() && len < buf.Length
      modifies this, buf
      ensures Valid() && len == old(len) + 1 && queue == old(queue) + [b]
      ensures accepted == old(accepted) + [b] && delivered == old(delivered)
    {
      Ring.SlotIsMod(buf.Length, head, 1);
      buf[head] := b;
      head := (head + 1) % buf.Length;
      len := len + 1;
      queue := queue + [b];
      accepted := accepted + [b];
    }

    /** `read`: gives out the oldest bytes. */
    method Read(most: nat) returns (out: seq<u8>)
      requires Valid()
      modifies this
      ensures Valid() && |out| == (if most < old(len) then most else old(len))
      ensures out == old(queue)[..|out|] && queue == old(queue)[|out|..]
      ensures delivered == old(delivered) + out && accepted == old(accepted)
    {
      var n := if most < len then most else len;
      out := [];
      for i := 0 to n
        invariant Valid() && len == old(len) - i && |out| == i
        invariant out == old(queue)[..i] && queue == old(queue)[i..]
        invariant delivered == old(delivered) + out && accepted == old(accepted)
      {
        var b := GetByte();
        out := out + [b];
      }
    }

    method GetByte() returns (b: u8)
      requires Valid() && len > 0
      modifies this
      ensures Valid() && len == old(len) - 1 && b == old(queue)[0] && queue == old(queue)[1..]
      ensures delivered == old(delivered) + [b] && accepted == old(accepted)
    {
      Ring.SlotIsMod(buf.Length, tail, 1);
      b := buf[tail];
      tail := (tail + 1) % buf.Length;
      len := len - 1;
      assert queue == [queue[0]] + queue[1..];
      delivered := delivered + [b];
      queue := queue[1..];
    }
  }
}
