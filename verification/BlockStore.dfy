/** The block layer of kernel/src/fs.rs: a disk of 512-byte blocks behind the 16-slot
    write-through cache, and the inode and bitmap helpers on top of it.

    `vol` is the abstract volume: the bitmap as a sequence of booleans, the inode table
    as a sequence of inodes, and the data blocks. `Valid` ties it to the bytes on the
    disk; every method below says what it does to `vol`, so the layers above never look
    at metadata bytes again. Disk transfers are assumed not to fail. */
module BlockStore {
  import opened Wrappers
  import opened DiskFormat

  const CACHE_SLOTS := 16

  datatype Slot = Slot(block: u32, valid: bool, data: Block)

  datatype Vol = Vol(l: Layout, used: seq<bool>, inodes: seq<Inode>, data: seq<Block>)

  /** The lengths a volume always has. */
  ghost predicate Shape(v: Vol) {
    && GoodLayout(v.l)
    && |v.used| == v.l.total
    && |v.data| == v.l.total
    && |v.inodes| == INODE_COUNT
  }

  predicate BitOf(disk: seq<Block>, b: nat)
    requires BitmapBlock(b) < |disk|
  {
    Bit(disk[BitmapBlock(b)][BitmapByte(b)], BitmapBit(b))
  }

  /** The disk bytes encode volume `v`. */
  ghost predicate Encodes(disk: seq<Block>, v: Vol)
    requires Shape(v)
  {
    && |disk| == v.l.total
    && (forall b {:trigger disk[b]} :: v.l.dataStart <= b < v.l.total ==> v.data[b] == disk[b])
    && (forall b {:trigger BitmapBlock(b)} :: 0 <= b < v.l.total ==>
          BitmapBlock(b) < |disk| && v.used[b] == BitOf(disk, b))
    && (forall i {:trigger InodeBlock(v.l, i)} :: 0 <= i < INODE_COUNT ==>
         InodeBlock(v.l, i) < |disk| && InodeOff(i) + INODE_SIZE <= BLOCK_SIZE
         && v.inodes[i] == InodeAt(disk[InodeBlock(v.l, i)], InodeOff(i)))
  }

  /** Every disk image of the right size encodes a volume. */
  lemma Decode(disk: seq<Block>, l: Layout) returns (v: Vol)
    requires GoodLayout(l) && |disk| == l.total
    ensures v.l == l && Shape(v) && Encodes(disk, v)
  {
    forall b | 0 <= b < l.total ensures BitmapBlock(b) < |disk| {
      BitmapLocInBitmap(l, b);
    }
    forall i | 0 <= i < INODE_COUNT ensures InodeBlock(l, i) < |disk| && InodeOff(i) + INODE_SIZE <= BLOCK_SIZE {
      InodeLocInTable(l, i);
    }
    var used := seq(|disk|, b requires 0 <= b < |disk| && BitmapBlock(b) < |disk| => BitOf(disk, b));
    var inodes := seq(INODE_COUNT, i requires 0 <= i < INODE_COUNT && InodeBlock(l, i) < |disk|
        && InodeOff(i) + INODE_SIZE <= BLOCK_SIZE
                                   => InodeAt(disk[InodeBlock(l, i)], InodeOff(i)));
    v := Vol(l, used, inodes, disk);
  }

  /** Writing a data block changes that data block only. */
  lemma EncodesData(disk: seq<Block>, v: Vol, b: nat, blk: Block)
    requires Shape(v) && Encodes(disk, v) && v.l.dataStart <= b < v.l.total
    ensures Encodes(disk[b := blk], v.(data := v.data[b := blk]))
  {
    var d := disk[b := blk];
    forall c | 0 <= c < v.l.total ensures BitmapBlock(c) < |d| && v.used[c] == BitOf(d, c) {
      BitmapLocInBitmap(v.l, c);
    }
    forall i | 0 <= i < INODE_COUNT
      ensures InodeBlock(v.l, i) < |d| && v.inodes[i] == InodeAt(d[InodeBlock(v.l, i)], InodeOff(i))
    {
      InodeLocInTable(v.l, i);
    }
  }

  /** Writing inode `ino` into its table block changes that inode only. */
  lemma EncodesInode(disk: seq<Block>, v: Vol, ino: nat, n: Inode, blk: Block)
    requires Shape(v) && Encodes(disk, v) && ino < INODE_COUNT
    requires InodeAt(blk, InodeOff(ino)) == n
    requires forall k :: 0 <= k < BLOCK_SIZE && !(InodeOff(ino) <= k < InodeOff(ino) + INODE_SIZE) ==>
               blk[k] == disk[InodeBlock(v.l, ino)][k]
    ensures Encodes(disk[InodeBlock(v.l, ino) := blk], v.(inodes := v.inodes[ino := n]))
  {
    InodeLocInTable(v.l, ino);
    var t := InodeBlock(v.l, ino);
    var d := disk[t := blk];
    forall c | 0 <= c < v.l.total ensures BitmapBlock(c) < |d| && v.used[c] == BitOf(d, c) {
      BitmapLocInBitmap(v.l, c);
    }
    forall i | 0 <= i < INODE_COUNT && i != ino
      ensures InodeBlock(v.l, i) < |d| && v.inodes[i] == InodeAt(d[InodeBlock(v.l, i)], InodeOff(i))
    {
      InodeLocInTable(v.l, i);
      if InodeBlock(v.l, i) == t {
        InodeLocDisjoint(v.l, i, ino);
        InodeAtFrame(blk, disk[t], InodeOff(i));
      }
    }
  }

  /** Changing one bitmap bit changes that `used` flag only. */
  lemma EncodesBit(disk: seq<Block>, v: Vol, b: nat, on: bool, blk: Block)
    requires Shape(v) && Encodes(disk, v) && b < v.l.total
    requires var was := disk[BitmapBlock(b)];
             blk == was[BitmapByte(b) := PutByteBit(was[BitmapByte(b)], BitmapBit(b), on)]
    ensures Encodes(disk[BitmapBlock(b) := blk], v.(used := v.used[b := on]))
  {
    BitmapLocInBitmap(v.l, b);
    var d := disk[BitmapBlock(b) := blk];
    forall c | 0 <= c < v.l.total ensures BitmapBlock(c) < |d| && v.used[b := on][c] == BitOf(d, c) {
      BitmapLocInBitmap(v.l, c);
      if c != b {
        BitmapLocDistinct(b, c);
      }
    }
    forall i | 0 <= i < INODE_COUNT
      ensures InodeBlock(v.l, i) < |d| && v.inodes[i] == InodeAt(d[InodeBlock(v.l, i)], InodeOff(i))
    {
      InodeLocInTable(v.l, i);
    }
  }

  /** No data block is free. */
  ghost predicate Full(v: Vol)
    requires Shape(v)
  {
    forall b :: v.l.dataStart <= b < v.l.total ==> v.used[b]
  }

  /** The volume after `alloc_block` has handed out block `b`. */
  function Allocated(v: Vol, b: nat): (r: Vol)
    requires |v.used| == |v.data| && b < |v.used|
  {
    Vol(v.l, v.used[b := true], v.inodes, v.data[b := ZeroBlock()])
  }

  class Store {
    var disk: seq<Block>
    var layout: Layout
    const cache: array<Slot>
    ghost var vol: Vol

    /** Every valid slot holds the disk's current contents of a block that maps to it. */
    ghost predicate CacheOk()
      reads this, cache
    {
      && cache.Length == CACHE_SLOTS
      && forall s :: 0 <= s < CACHE_SLOTS && cache[s].valid ==>
           cache[s].block % CACHE_SLOTS == s && cache[s].block < |disk| && cache[s].data == disk[cache[s].block]
    }

    ghost predicate Valid()
      reads this, cache
    {
      && CacheOk()
      && Shape(vol)
      && layout == vol.l
      && Encodes(disk, vol)
    }

    constructor (image: seq<Block>)
      ensures CacheOk() && disk == image && fresh(cache)
    {
      disk := image;
      layout := Layout(0, 0, 0, 0);
      vol := Vol(Layout(0, 0, 0, 0), [], [], []);
      cache := new Slot[CACHE_SLOTS](_ => Slot(0, false, ZeroBlock()));
    }

    /** `read_block`: the cached read returns what the disk holds. */
    method ReadBlock(b: u32) returns (r: Block)
      requires CacheOk() && b < |disk|
      modifies cache
      ensures CacheOk()
      ensures r == disk[b]
    {
      var slot := b % CACHE_SLOTS;
      var c := cache[slot];
      if c.valid && c.block == b {
        return c.data;
      }
      r := disk[b];
      cache[slot] := Slot(b, true, r);
    }

    /** `write_block`: write-through, so disk and cache agree afterwards. */
    method WriteBlock(b: u32, data: Block)
      requires CacheOk() && b < |disk|
      modifies this`disk, cache
      ensures CacheOk()
      ensures disk == old(disk)[b := data]
    {
      disk := disk[b := data];
      cache[b % CACHE_SLOTS] := Slot(b, true, data);
    }

    /** `check_superblock`: accepts exactly the magic number and derives the layout. */
    method CheckSuperblock() returns (ok: bool)
      requires CacheOk() && |disk| > 0
      modifies this`layout, this`vol, cache
      ensures CacheOk()
      ensures ok <==> disk[0][..4] == [0x50, 0x0F, 0xA5, 0xF5]
      ensures ok ==> layout.total <= 0xFFFF_FFFF && disk[0][4..8] == Le32(layout.total)
                     && layout == LayoutFor(layout.total)
      ensures !ok ==> layout == old(layout)
      ensures ok && |disk| == layout.total && layout.dataStart <= layout.total ==> Valid()
    {
      var sb := ReadBlock(0);
      ReadBack(sb, 0);
      ReadBack(sb, 4);
      assert Le32(MAGIC) == [0x50, 0x0F, 0xA5, 0xF5];
      if Rd32(sb, 0) != MAGIC {
        return false;
      }
      layout := LayoutFor(Rd32(sb, 4));
      if |disk| == layout.total && layout.dataStart <= layout.total {
        vol := Decode(disk, layout);
      }
      return true;
    }

    /** `read_inode` */
    method ReadInode(ino: u32) returns (n: Inode)
      requires Valid() && ino < INODE_COUNT
      modifies cache
      ensures Valid()
      ensures n == vol.inodes[ino]
    {
      InodeLocInTable(layout, ino);
      var b := ReadBlock(InodeBlock(layout, ino));
      n := ParseInode(b, InodeOff(ino));
    }

    /** `write_inode` */
    method PutInode(ino: u32, n: Inode)
      requires Valid() && ino < INODE_COUNT
      modifies this`disk, this`vol, cache
      ensures Valid()
      ensures vol == old(vol).(inodes := old(vol).inodes[ino := n])
    {
      InodeLocInTable(layout, ino);
      var t := InodeBlock(layout, ino);
      var b := ReadBlock(t);
      var r := WriteInode(b, InodeOff(ino), n);
      EncodesInode(disk, vol, ino, n, r);
      WriteBlock(t, r);
      vol := vol.(inodes := vol.inodes[ino := n]);
    }

    method ReadData(b: u32) returns (r: Block)
      requires Valid() && vol.l.dataStart <= b < vol.l.total
      modifies cache
      ensures Valid()
      ensures r == vol.data[b]
    {
      r := ReadBlock(b);
    }

    method WriteData(b: u32, data: Block)
      requires Valid() && vol.l.dataStart <= b < vol.l.total
      modifies this`disk, this`vol, cache
      ensures Valid()
      ensures vol == old(vol).(data := old(vol).data[b := data])
    {
      EncodesData(disk, vol, b, data);
      WriteBlock(b, data);
      vol := vol.(data := vol.data[b := data]);
    }

    /** `alloc_block`: the lowest free data block, now used and zeroed; `None` exactly when
        no data block is free. Metadata blocks are never handed out. */
    method AllocBlock() returns (r: Option<u32>)
      requires Valid()
      modifies this`disk, this`vol, cache
      ensures Valid()
      ensures r.None? ==> vol == old(vol) && Full(vol)
      ensures r.Some? ==>
                && old(vol).l.dataStart <= r.value < old(vol).l.total
                && !old(vol).used[r.value]
                && (forall b :: old(vol).l.dataStart <= b < r.value ==> old(vol).used[b])
                && vol == Allocated(old(vol), r.value)
    {
      var b := layout.dataStart;
      while b < layout.total
        invariant layout.dataStart <= b <= layout.total
        invariant Valid() && vol == old(vol) && layout == old(layout)
        invariant forall c :: layout.dataStart <= c < b ==> vol.used[c]
      {
        BitmapLocInBitmap(layout, b);
        var bm := ReadBlock(BitmapBlock(b));
        if !Bit(bm[BitmapByte(b)], BitmapBit(b)) {
          var bm' := bm[BitmapByte(b) := PutByteBit(bm[BitmapByte(b)], BitmapBit(b), true)];
          EncodesBit(disk, vol, b, true, bm');
          WriteBlock(BitmapBlock(b), bm');
          vol := vol.(used := vol.used[b := true]);
          WriteData(b, ZeroBlock());
          return Some(b);
        }
        b := b + 1;
      }
      return None;
    }

    /** `free_block` clears one bit. */
    method FreeBlock(b: u32)
      requires Valid() && b < vol.l.total
      modifies this`disk, this`vol, cache
      ensures Valid()
      ensures vol == old(vol).(used := old(vol).used[b := false])
    {
      BitmapLocInBitmap(layout, b);
      var bm := ReadBlock(BitmapBlock(b));
      var bm' := bm[BitmapByte(b) := PutByteBit(bm[BitmapByte(b)], BitmapBit(b), false)];
      EncodesBit(disk, vol, b, false, bm');
      WriteBlock(BitmapBlock(b), bm');
      vol := vol.(used := vol.used[b := false]);
    }

    /** `alloc_inode`: the lowest inode number from 2 up whose kind is free. */
    method AllocInode() returns (r: Option<u32>)
      requires Valid()
      modifies cache
      ensures Valid()
      ensures r.None? ==> forall i :: 2 <= i < INODE_COUNT ==> vol.inodes[i].kind != T_FREE
      ensures r.Some? ==> 2 <= r.value < INODE_COUNT && vol.inodes[r.value].kind == T_FREE
                          && forall i :: 2 <= i < r.value ==> vol.inodes[i].kind != T_FREE
    {
      for ino := 2 to INODE_COUNT
        invariant Valid()
        invariant forall i :: 2 <= i < ino ==> vol.inodes[i].kind != T_FREE
      {
        var n := ReadInode(ino);
        if n.kind == T_FREE {
          return Some(ino);
        }
      }
      return None;
    }
  }
}
