/** The on-disk format of the Frame OS filesystem (shared/src/fs.rs): block size,
    layout arithmetic, little-endian fields, inodes, bitmap bits and directory entries.

    Bytes are modelled as integers below 256, so that `u16`/`u32` fields are plain
    integer arithmetic; a block is a sequence of exactly 512 of them. */
module DiskFormat {

  type u8 = x: int | 0 <= x < 0x100
  type u16 = x: int | 0 <= x < 0x1_0000
  type u32 = x: int | 0 <= x < 0x1_0000_0000

  /** `as u32`: keeps the low 32 bits. */
  function U32(x: nat): (r: u32)
    ensures x < 0x1_0000_0000 ==> r == x
    ensures (x - r) % 0x1_0000_0000 == 0
  {
    x % 0x1_0000_0000
  }

  const BLOCK_SIZE := 512
  const MAGIC: u32 := 0xF5A5_0F50
  const BITS_PER_BLOCK := 4096
  const PTRS_PER_BLOCK := 128
  const INODE_SIZE := 128
  const INODES_PER_BLOCK := 4
  const INODE_BLOCKS := 32
  const INODE_COUNT := 128
  const NDIRECT := 28
  const NAME_LEN := 28
  const DIRENT_SIZE := 32
  const DIRENTS_PER_BLOCK := 16
  const ROOT_INODE := 1
  const T_FREE: u16 := 0
  const T_FILE: u16 := 1
  const T_DIR: u16 := 2

  type Block = s: seq<u8> | |s| == BLOCK_SIZE witness seq(BLOCK_SIZE, _ => 0)

  function ZeroBlock(): (b: Block)
    ensures forall k :: 0 <= k < BLOCK_SIZE ==> b[k] == 0
  {
    seq(BLOCK_SIZE, _ => 0)
  }

  // --- layout ---------------------------------------------------------------

  datatype Layout = Layout(total: u32, bitmapBlocks: nat, inodeStart: nat, dataStart: nat)

  /** Superblock, then a bitmap covering the whole disk, then 32 inode blocks, then data. */
  function LayoutFor(total: u32): (l: Layout)
    ensures l.bitmapBlocks * BITS_PER_BLOCK >= total
    ensures total > 0 ==> (l.bitmapBlocks - 1) * BITS_PER_BLOCK < total
    ensures 1 + l.bitmapBlocks == l.inodeStart && l.inodeStart + INODE_BLOCKS == l.dataStart
  {
    var bitmapBlocks := (total + BITS_PER_BLOCK - 1) / BITS_PER_BLOCK;
    Layout(total, bitmapBlocks, 1 + bitmapBlocks, 1 + bitmapBlocks + INODE_BLOCKS)
  }

  /** The layout is the one computed for its total, and the metadata fits on the disk. */
  ghost predicate GoodLayout(l: Layout) {
    l == LayoutFor(l.total) && l.dataStart <= l.total
  }

  function InodeBlock(l: Layout, ino: nat): nat { l.inodeStart + ino / INODES_PER_BLOCK }
  function InodeOff(ino: nat): nat { (ino % INODES_PER_BLOCK) * INODE_SIZE }

  function BitmapBlock(b: nat): nat { 1 + b / BITS_PER_BLOCK }
  function BitmapByte(b: nat): (r: nat) ensures r < BLOCK_SIZE { b % BITS_PER_BLOCK / 8 }
  function BitmapBit(b: nat): (r: nat) ensures r < 8 { b % BITS_PER_BLOCK % 8 }

  /** Inode blocks lie strictly between the bitmap and the data region. */
  lemma InodeLocInTable(l: Layout, ino: nat)
    requires GoodLayout(l) && ino < INODE_COUNT
    ensures l.inodeStart <= InodeBlock(l, ino) < l.dataStart
    ensures InodeOff(ino) + INODE_SIZE <= BLOCK_SIZE
    ensures (InodeBlock(l, ino) - l.inodeStart) * 512 + InodeOff(ino) == ino * 128
  {
  }

  /** Two inodes in the same table block occupy disjoint byte ranges. */
  lemma InodeLocDisjoint(l: Layout, i: nat, j: nat)
    requires i != j && InodeBlock(l, i) == InodeBlock(l, j)
    ensures InodeOff(i) + INODE_SIZE <= InodeOff(j) || InodeOff(j) + INODE_SIZE <= InodeOff(i)
  {
  }

  lemma BitmapLocInBitmap(l: Layout, b: nat)
    requires GoodLayout(l) && b < l.total
    ensures 1 <= BitmapBlock(b) < l.inodeStart
    ensures ((BitmapBlock(b) - 1) * 512 + BitmapByte(b)) * 8 + BitmapBit(b) == b
  {
  }

  /** A disk of 4096 blocks: one bitmap block, 32 inode blocks from block 2, data from block 34. */
  lemma LayoutExample()
    ensures LayoutFor(4096) == Layout(4096, 1, 2, 34) && LayoutFor(4097).dataStart == 35
  {
  }

  /** Distinct blocks are tracked by distinct bits. */
  lemma BitmapLocDistinct(a: nat, b: nat)
    requires a != b
    ensures BitmapBlock(a) != BitmapBlock(b) || BitmapByte(a) != BitmapByte(b) || BitmapBit(a) != BitmapBit(b)
  {
  }

  // --- bits -------------------------------------------------------------------

  /** `x & (1 << k) != 0` */
  predicate Bit(x: nat, k: nat) {
    if k == 0 then x % 2 == 1 else Bit(x / 2, k - 1)
  }

  /** `x | (1 << k)` when `on`, `x & !(1 << k)` otherwise. */
  function PutBit(x: nat, k: nat, on: bool): (y: nat) {
    if k == 0 then x / 2 * 2 + (if on then 1 else 0) else PutBit(x / 2, k - 1, on) * 2 + x % 2
  }

  lemma {:induction false} BitPutBit(x: nat, k: nat, on: bool, j: nat)
    ensures Bit(PutBit(x, k, on), j) == if j == k then on else Bit(x, j)
  {
    if k != 0 && j != 0 {
      BitPutBit(x / 2, k - 1, on, j - 1);
    }
  }

  function Pow2(w: nat): (r: nat) ensures r > 0 { if w == 0 then 1 else 2 * Pow2(w - 1) }

  /** Setting bit `k` adds 2^k unless it is there, clearing it takes 2^k away if it is. */
  lemma {:induction false} PutBitValue(x: nat, k: nat)
    ensures PutBit(x, k, true) == x + if Bit(x, k) then 0 else Pow2(k)
    ensures PutBit(x, k, false) == x - if Bit(x, k) then Pow2(k) else 0
  {
    if k != 0 {
      PutBitValue(x / 2, k - 1);
    }
  }

  /** Changing bit `k` of a `w`-bit number leaves a `w`-bit number. */
  lemma {:induction false} PutBitFits(x: nat, k: nat, on: bool, w: nat)
    requires x < Pow2(w) && k < w
    ensures PutBit(x, k, on) < Pow2(w)
  {
    var half := Pow2(w - 1);
    assert Pow2(w) == 2 * half;
    if k != 0 {
      PutBitFits(x / 2, k - 1, on, w - 1);
      assert PutBit(x, k, on) == PutBit(x / 2, k - 1, on) * 2 + x % 2;
    } else {
      assert x / 2 < half;
    }
  }

  lemma PutByteBitLaw(x: u8, k: nat, on: bool)
    requires k < 8
    ensures PutBit(x, k, on) < 256
    ensures forall j: nat :: Bit(PutBit(x, k, on), j) == if j == k then on else Bit(x, j)
  {
    assert Pow2(8) == 256 by { assert Pow2(4) == 16; }
    PutBitFits(x, k, on, 8);
    forall j: nat ensures Bit(PutBit(x, k, on), j) == if j == k then on else Bit(x, j) {
      BitPutBit(x, k, on, j);
    }
  }

  /** One bit of a byte updated. */
  function PutByteBit(x: u8, k: nat, on: bool): (y: u8)
    requires k < 8
    ensures forall j: nat :: Bit(y, j) == if j == k then on else Bit(x, j)
  {
    PutByteBitLaw(x, k, on);
    PutBit(x, k, on)
  }

  // --- little-endian fields ------------------------------------------------------

  function Rd16(b: seq<u8>, o: nat): (v: u16)
    requires o + 2 <= |b|
  {
    var b0: int, b1: int := b[o], b[o + 1];
    b0 + 0x100 * b1
  }

  function Rd32(b: seq<u8>, o: nat): (v: u32)
    requires o + 4 <= |b|
  {
    var b0: int, b1: int, b2: int, b3: int := b[o], b[o + 1], b[o + 2], b[o + 3];
    b0 + 0x100 * b1 + 0x1_0000 * b2 + 0x100_0000 * b3
  }

  function Wr16(b: seq<u8>, o: nat, v: u16): (r: seq<u8>)
    requires o + 2 <= |b|
    ensures |r| == |b| && Rd16(r, o) == v && r[o] == v % 0x100 && r[o + 1] == v / 0x100
    ensures forall k :: 0 <= k < |b| && !(o <= k < o + 2) ==> r[k] == b[k]
  {
    b[o := v % 0x100][o + 1 := v / 0x100]
  }

  function Le32(v: u32): (r: seq<u8>)
    ensures |r| == 4 && Rd32(r, 0) == v
    ensures r[0] == v % 0x100 && r[1] == v / 0x100 % 0x100 && r[2] == v / 0x1_0000 % 0x100 && r[3] == v / 0x100_0000
  {
    var v1: int := v / 0x100;
    var v2: int := v1 / 0x100;
    [v % 0x100, v1 % 0x100, v2 % 0x100, v2 / 0x100]
  }

  function Wr32(b: seq<u8>, o: nat, v: u32): (r: seq<u8>)
    requires o + 4 <= |b|
    ensures |r| == |b| && Rd32(r, o) == v
    ensures forall k :: 0 <= k < |b| && !(o <= k < o + 4) ==> r[k] == b[k]
  {
    var le := Le32(v);
    b[o := le[0]][o + 1 := le[1]][o + 2 := le[2]][o + 3 := le[3]]
  }

  /** Reading and writing back gives the same bytes. */
  lemma ReadBack(b: seq<u8>, o: nat)
    ensures o + 4 <= |b| ==> Le32(Rd32(b, o)) == b[o..o + 4]
    ensures o + 2 <= |b| ==> Wr16(b, o, Rd16(b, o)) == b
  {
    if o + 4 <= |b| {
      var b0: int, b1: int, b2: int, b3: int := b[o], b[o + 1], b[o + 2], b[o + 3];
      Le32Bytes(b0, b1, b2, b3);
      assert b[o..o + 4] == [b[o], b[o + 1], b[o + 2], b[o + 3]];
    }
  }

  lemma Le32Bytes(b0: u8, b1: u8, b2: u8, b3: u8)
    ensures Le32(b0 + 0x100 * b1 + 0x1_0000 * b2 + 0x100_0000 * b3) == [b0, b1, b2, b3]
  {
    LowByte(b0, b1 + 0x100 * b2 + 0x1_0000 * b3);
    LowByte(b1, b2 + 0x100 * b3);
    LowByte(b2, b3);
  }

  lemma LowByte(b: u8, high: nat)
    ensures (b + 0x100 * high) % 0x100 == b && (b + 0x100 * high) / 0x100 == high
  {
  }

  /** The first bytes of the superblock of a disk of 4096 blocks. */
  lemma SuperblockExample(rest: seq<u8>)
    ensures var b := [0x50, 0x0F, 0xA5, 0xF5, 0x00, 0x10, 0x00, 0x00] + rest;
            Rd32(b, 0) == MAGIC && Rd32(b, 4) == 4096
  {
  }

  // --- inodes -----------------------------------------------------------------------

  type Pointers = s: seq<u32> | |s| == NDIRECT witness seq(NDIRECT, _ => 0)

  datatype Inode = Inode(kind: u16, nlink: u16, size: u32, direct: Pointers, indirect: u32, double: u32)

  /** `Inode::empty` with a kind filled in: no blocks, size 0. */
  function NewInode(kind: u16, nlink: u16): (n: Inode)
    ensures n.kind == kind && n.size == 0 && n.indirect == 0 && n.double == 0
    ensures forall i :: 0 <= i < NDIRECT ==> n.direct[i] == 0
  {
    Inode(kind, nlink, 0, seq(NDIRECT, _ => 0), 0, 0)
  }

  /** The inode whose 128 bytes start at `off`. */
  function InodeAt(b: seq<u8>, off: nat): (n: Inode)
    requires off + INODE_SIZE <= |b|
  {
    Inode(Rd16(b, off), Rd16(b, off + 2), Rd32(b, off + 4),
          seq(NDIRECT, i requires 0 <= i < NDIRECT => Rd32(b, off + 8 + i * 4)),
          Rd32(b, off + 120), Rd32(b, off + 124))
  }

  /** Where the fields of an inode stand, and in which byte order. */
  lemma InodeBytes(b: seq<u8>, off: nat)
    requires off + INODE_SIZE <= |b|
    ensures var n := InodeAt(b, off);
            && b[off] == n.kind % 256 && b[off + 1] == n.kind / 256
            && b[off + 2] == n.nlink % 256 && b[off + 3] == n.nlink / 256
            && b[off + 4..off + 8] == Le32(n.size)
            && (forall i :: 0 <= i < 28 ==> b[off + 8 + i * 4..off + 12 + i * 4] == Le32(n.direct[i]))
            && b[off + 120..off + 124] == Le32(n.indirect) && b[off + 124..off + 128] == Le32(n.double)
  {
    ReadBack(b, off + 4);
    ReadBack(b, off + 120);
    ReadBack(b, off + 124);
    forall i | 0 <= i < 28 ensures b[off + 8 + i * 4..off + 12 + i * 4] == Le32(InodeAt(b, off).direct[i]) {
      PointerBytes(b, off, i);
    }
  }

  lemma PointerBytes(b: seq<u8>, off: nat, i: nat)
    requires off + INODE_SIZE <= |b| && i < NDIRECT
    ensures b[off + 8 + i * 4..off + 12 + i * 4] == Le32(InodeAt(b, off).direct[i])
  {
    ReadBack(b, off + 8 + i * 4);
  }

  /** A directory with one link and 288 bytes in block 34. */
  lemma InodeExample()
    ensures var n := InodeAt([2, 0, 1, 0, 0x20, 1, 0, 0, 34, 0, 0, 0] + seq(116, _ => 0), 0);
            && n.kind == T_DIR && n.nlink == 1 && n.size == 288 && n.direct[0] == 34 && n.indirect == n.double == 0
            && forall i :: 1 <= i < 28 ==> n.direct[i] == 0
  {
  }

  /** `Inode::parse`: the direct pointers are filled one by one. */
  method ParseInode(b: seq<u8>, off: nat) returns (n: Inode)
    requires off + INODE_SIZE <= |b|
    ensures n == InodeAt(b, off)
  {
    var direct: seq<u32> := [];
    for i := 0 to NDIRECT
      invariant |direct| == i
      invariant forall k :: 0 <= k < i ==> direct[k] == Rd32(b, off + 8 + k * 4)
    {
      direct := direct + [Rd32(b, off + 8 + i * 4)];
    }
    n := Inode(Rd16(b, off), Rd16(b, off + 2), Rd32(b, off + 4), direct, Rd32(b, off + 120), Rd32(b, off + 124));
    assert n.direct == InodeAt(b, off).direct;
  }

  /** The direct-pointer loop of `Inode::write`. */
  method WritePointers(b: seq<u8>, o: nat, ptrs: Pointers) returns (r: seq<u8>)
    requires o + NDIRECT * 4 <= |b|
    ensures |r| == |b|
    ensures forall k :: 0 <= k < NDIRECT ==> Rd32(r, o + k * 4) == ptrs[k]
    ensures forall k :: 0 <= k < |b| && !(o <= k < o + NDIRECT * 4) ==> r[k] == b[k]
  {
    r := b;
    for i := 0 to NDIRECT
      invariant |r| == |b|
      invariant forall k :: 0 <= k < i ==> Rd32(r, o + k * 4) == ptrs[k]
      invariant forall k :: 0 <= k < |b| && !(o <= k < o + NDIRECT * 4) ==> r[k] == b[k]
    {
      r := Wr32(r, o + i * 4, ptrs[i]);
    }
  }

  /** `Inode::write`: parsing the written range gives the inode back, every other byte is kept. */
  method WriteInode(b: seq<u8>, off: nat, n: Inode) returns (r: seq<u8>)
    requires off + INODE_SIZE <= |b|
    ensures |r| == |b| && InodeAt(r, off) == n
    ensures forall k :: 0 <= k < |b| && !(off <= k < off + INODE_SIZE) ==> r[k] == b[k]
  {
    var b1 := Wr16(b, off, n.kind);
    var b2 := Wr16(b1, off + 2, n.nlink);
    var b3 := Wr32(b2, off + 4, n.size);
    var b4 := WritePointers(b3, off + 8, n.direct);
    var b5 := Wr32(b4, off + 120, n.indirect);
    r := Wr32(b5, off + 124, n.double);
    assert Rd16(r, off) == Rd16(b1, off) && Rd16(r, off + 2) == Rd16(b2, off + 2)
        && Rd32(r, off + 4) == Rd32(b3, off + 4);
    assert forall k :: 0 <= k < NDIRECT ==> Rd32(r, off + 8 + k * 4) == Rd32(b4, off + 8 + k * 4);
    assert InodeAt(r, off).direct == n.direct;
  }

  /** Reads of a block range depend only on the bytes of that range. */
  lemma InodeAtFrame(a: seq<u8>, b: seq<u8>, off: nat)
    requires off + INODE_SIZE <= |a| == |b|
    requires forall k :: off <= k < off + INODE_SIZE ==> a[k] == b[k]
    ensures InodeAt(a, off) == InodeAt(b, off)
  {
  }

  // --- directory entries ---------------------------------------------------------------

  type Name = s: seq<u8> | |s| == NAME_LEN witness seq(NAME_LEN, _ => 0)

  datatype Dirent = Dirent(name: Name, ino: u32)

  /** `name` cut to 28 bytes and padded with NULs, as `write_dirent` stores it. */
  function Pad(name: seq<u8>): (r: Name) {
    seq(NAME_LEN, i requires 0 <= i < NAME_LEN => if i < |name| then name[i] else 0)
  }

  /** A stored name that is a C string followed only by NULs. */
  ghost predicate Padded(d: Name) {
    forall i, j :: 0 <= i < j < NAME_LEN && d[i] == 0 ==> d[j] == 0
  }

  /** The names that fit the field: at most 28 bytes, with NULs at the end only. */
  ghost predicate GoodName(name: seq<u8>) { |name| <= NAME_LEN && Padded(Pad(name)) }

  function DirentAt(b: seq<u8>, off: nat): (d: Dirent)
    requires off + DIRENT_SIZE <= |b|
  {
    Dirent(b[off..off + NAME_LEN], Rd32(b, off + NAME_LEN))
  }

  lemma PutDirentLaw(b: seq<u8>, off: nat, name: seq<u8>, ino: u32)
    requires off + DIRENT_SIZE <= |b|
    ensures |b[..off] + Pad(name) + b[off + NAME_LEN..]| == |b|
    ensures DirentAt(Wr32(b[..off] + Pad(name) + b[off + NAME_LEN..], off + NAME_LEN, ino), off) ==
            Dirent(Pad(name), ino)
  {
  }

  /** `write_dirent`: the entry reads back as the padded name, every other byte is kept. */
  function PutDirent(b: seq<u8>, off: nat, name: seq<u8>, ino: u32): (r: seq<u8>)
    requires off + DIRENT_SIZE <= |b|
    ensures |r| == |b| && DirentAt(r, off) == Dirent(Pad(name), ino)
    ensures forall k :: 0 <= k < |b| && !(off <= k < off + DIRENT_SIZE) ==> r[k] == b[k]
  {
    PutDirentLaw(b, off, name, ino);
    Wr32(b[..off] + Pad(name) + b[off + NAME_LEN..], off + NAME_LEN, ino)
  }

  /** The 32 bytes of a stored entry. */
  function DirentBytes(name: seq<u8>, ino: u32): (r: seq<u8>)
    ensures |r| == DIRENT_SIZE
  {
    Pad(name) + Le32(ino)
  }

  /** A byte range holding `DirentBytes` reads back as that entry. */
  lemma DirentFromBytes(b: seq<u8>, off: nat, name: seq<u8>, ino: u32)
    requires off + DIRENT_SIZE <= |b|
    requires forall j :: 0 <= j < DIRENT_SIZE ==> b[off + j] == DirentBytes(name, ino)[j]
    ensures DirentAt(b, off) == Dirent(Pad(name), ino)
  {
    var bytes := DirentBytes(name, ino);
    assert b[off..off + NAME_LEN] == Pad(name) by {
      forall j | 0 <= j < NAME_LEN ensures b[off..off + NAME_LEN][j] == Pad(name)[j] {
        assert b[off + j] == bytes[j];
      }
    }
    assert Rd32(b, off + NAME_LEN) == Rd32(Le32(ino), 0) by {
      assert forall j :: 0 <= j < 4 ==> b[off + (NAME_LEN + j)] == bytes[NAME_LEN + j] == Le32(ino)[j];
    }
  }

  /** The entry "hi" for inode 7: the name, NULs up to 28 bytes, the number. */
  lemma DirentExample()
    ensures DirentBytes([104, 105], 7) == [104, 105] + seq(26, _ => 0) + [7, 0, 0, 0]
  {
  }

  /** `write_dirent` stores exactly those bytes. */
  lemma PutDirentBytes(b: seq<u8>, off: nat, name: seq<u8>, ino: u32)
    requires off + DIRENT_SIZE <= |b|
    ensures PutDirent(b, off, name, ino) == b[..off] + DirentBytes(name, ino) + b[off + DIRENT_SIZE..]
  {
  }

  /** `name_eq`: the bytes up to `name`'s length agree and a NUL (or the field's end) follows. */
  predicate NameEq(d: Name, name: seq<u8>) {
    var n := if |name| < NAME_LEN then |name| else NAME_LEN;
    !(n < NAME_LEN && d[n] != 0) && d[..n] == name && (n == NAME_LEN || d[n] == 0)
  }

  /** On stored names `name_eq` is equality with the padded name, and a name of more
      than 28 bytes equals nothing. */
  lemma NameEqIsPad(d: Name, name: seq<u8>)
    requires Padded(d)
    ensures NameEq(d, name) <==> |name| <= NAME_LEN && Pad(name) == d
  {
  }

  lemma DirentAtFrame(a: seq<u8>, b: seq<u8>, off: nat)
    requires off + DIRENT_SIZE <= |a| == |b|
    requires forall k :: off <= k < off + DIRENT_SIZE ==> a[k] == b[k]
    ensures DirentAt(a, off) == DirentAt(b, off)
  {
  }
}
