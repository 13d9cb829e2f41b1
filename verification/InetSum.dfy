/** The Internet checksum of kernel/src/net.rs (RFC 1071). */
module InetSum {
  import opened DiskFormat

  /** Big-endian 16-bit fields. */
  function Be16(b: seq<u8>, o: nat): (v: u16)
    requires o + 2 <= |b|
  {
    var hi: int, lo: int := b[o], b[o + 1];
    hi * 0x100 + lo
  }

  function PutBe16(b: seq<u8>, o: nat, v: u16): (r: seq<u8>)
    requires o + 2 <= |b|
    ensures |r| == |b| && Be16(r, o) == v && r[o] as int == v as int / 0x100 && r[o + 1] as int == v as int % 0x100
    ensures forall i :: 0 <= i < |b| && i != o && i != o + 1 ==> r[i] == b[i]
  {
    var x: int := v;
    b[o := x / 0x100][o + 1 := x % 0x100]
  }

  /** The sum of the 16-bit words from `i` on, an odd last byte padded with a zero. */
  function WordSum(b: seq<u8>, i: nat): (r: nat)
    requires i <= |b|
    decreases |b| - i
  {
    if i == |b| then 0
    else if i + 1 == |b| then b[i] as int * 0x100
    else Be16(b, i) as int + WordSum(b, i + 2)
  }

  /** Carries folded in until 16 bits are left. */
  function Fold(sum: nat): (r: u16)
  {
    if sum < 0x1_0000 then sum else Fold(sum % 0x1_0000 + sum / 0x1_0000)
  }

  function Checksum(b: seq<u8>): (r: u16) {
    var f: int := Fold(WordSum(b, 0));
    0xFFFF - f
  }

  lemma {:induction false} WordSumBound(b: seq<u8>, i: nat)
    requires i <= |b|
    ensures WordSum(b, i) <= 0xFFFF * (|b| - i)
    decreases |b| - i
  {
    if i + 1 < |b| {
      WordSumBound(b, i + 2);
    }
  }

  lemma WordSumStep(b: seq<u8>, i: nat)
    requires i + 1 < |b|
    ensures WordSum(b, i) == Be16(b, i) as int + WordSum(b, i + 2)
  {
  }

  /** `checksum`, with its two loops; the 32-bit accumulator does not overflow on anything shorter
      than 65536 bytes. */
  method ComputeChecksum(b: seq<u8>) returns (r: u16)
    requires |b| < 0x1_0000
    ensures r == Checksum(b)
  {
    var sum: u32 := 0;
    var i := 0;
    WordSumBound(b, 0);
    while i + 1 < |b|
      invariant 0 <= i <= |b|
      invariant WordSum(b, 0) == sum + WordSum(b, i)
    {
      WordSumBound(b, i + 2);
      WordSumStep(b, i);
      var word: int := Be16(b, i);
      assert sum + word <= WordSum(b, 0) < 0x1_0000_0000;
      sum := sum + word;
      i := i + 2;
    }
    if i < |b| {
      var last: int := b[i];
      assert WordSum(b, i) == last * 0x100;
      sum := sum + last * 0x100;
    }
    while sum >= 0x1_0000
      invariant Fold(WordSum(b, 0)) == Fold(sum)
    {
      sum := sum % 0x1_0000 + sum / 0x1_0000;
    }
    var low: int := sum;
    r := 0xFFFF - low;
  }

  /** Folding keeps the value modulo 65535, and keeps a non-zero value non-zero. */
  lemma {:induction false} FoldMod(sum: nat)
    ensures Fold(sum) as int % 0xFFFF == sum % 0xFFFF
    ensures sum > 0 ==> Fold(sum) > 0
  {
    if sum >= 0x1_0000 {
      var folded, high := sum % 0x1_0000 + sum / 0x1_0000, sum / 0x1_0000;
      FoldMod(folded);
      assert sum == folded + 0xFFFF * high;
      Casting65535(folded, high);
    }
  }

  lemma Casting65535(x: nat, k: nat)
    ensures (x + 0xFFFF * k) % 0xFFFF == x % 0xFFFF
  {
  }

  /** Storing `v` in a zeroed word at an even offset adds `v` to the sum. */
  lemma {:induction false} WordSumPut(b: seq<u8>, i: nat, o: nat, v: u16)
    requires i <= o && o + 2 <= |b| && (o - i) % 2 == 0 && Be16(b, o) == 0
    ensures WordSum(PutBe16(b, o, v), i) == WordSum(b, i) + v as int
    decreases |b| - i
  {
    var b' := PutBe16(b, o, v);
    if i == o {
      WordSumSame(b, b', o + 2);
    } else {
      WordSumPut(b, i + 2, o, v);
      assert Be16(b', i) == Be16(b, i);
    }
  }

  lemma {:induction false} WordSumSame(b: seq<u8>, c: seq<u8>, i: nat)
    requires |b| == |c| && i <= |b| && forall k :: i <= k < |b| ==> b[k] == c[k]
    ensures WordSum(b, i) == WordSum(c, i)
    decreases |b| - i
  {
    if i + 1 < |b| {
      WordSumSame(b, c, i + 2);
    }
  }

  /** An odd last byte counts as the high half of a word: appending a zero changes nothing. */
  lemma OddLastByte(b: seq<u8>)
    requires |b| % 2 == 1
    ensures Checksum(b) == Checksum(b + [0])
  {
    WordSumPadded(b, 0);
  }

  lemma {:induction false} WordSumPadded(b: seq<u8>, i: nat)
    requires i <= |b| && (|b| - i) % 2 == 1
    ensures WordSum(b + [0], i) == WordSum(b, i)
    decreases |b| - i
  {
    if i + 1 == |b| {
      assert WordSum(b + [0], i + 2) == 0;
    } else {
      WordSumPadded(b, i + 2);
    }
  }

  /** The words of the example in section 3 of RFC 1071 sum to 0xDDF2; the checksum is its complement. */
  lemma ChecksumExample()
    ensures Checksum([0x00, 0x01, 0xF2, 0x03, 0xF4, 0xF5, 0xF6, 0xF7]) == 0x220D
  {
    var b: seq<u8> := [0x00, 0x01, 0xF2, 0x03, 0xF4, 0xF5, 0xF6, 0xF7];
    assert WordSum(b, 6) == 0xF6F7 && WordSum(b, 4) == 0x1_EBEC && WordSum(b, 2) == 0x2_DDEF;
    assert WordSum(b, 0) == 0x2_DDF0 && Fold(0x2_DDF0) == Fold(0xDDF2);
  }

  /** A header carrying its own checksum sums to zero: what a receiver verifies. */
  lemma ChecksumVerifies(b: seq<u8>, o: nat)
    requires o + 2 <= |b| && o % 2 == 0 && Be16(b, o) == 0
    ensures Checksum(PutBe16(b, o, Checksum(b))) == 0
  {
    var s, c := WordSum(b, 0), Checksum(b);
    WordSumPut(b, 0, o, c);
    FoldMod(s);
    FoldMod(s + c as int);
    Complement(s, Fold(s), c);
  }

  lemma Complement(s: nat, f: u16, c: u16)
    requires f as int % 0xFFFF == s % 0xFFFF && c as int == 0xFFFF - f as int
    ensures (s + c as int) % 0xFFFF == 0 && s + c as int >= 0
    ensures s == 0 && f == 0 ==> c == 0xFFFF
  {
  }
}
