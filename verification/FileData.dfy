/** `read_at`, `write_at` and `truncate` (kernel/src/fs.rs) refine a plain byte array.

    `FileByte` is the abstract contents of a file: for every byte position, the byte stored
    there or nothing if the position is a hole. */
module FileData {
  import opened Wrappers
  import opened DiskFormat
  import opened BlockStore
  import opened BlockMap

  /** The byte at position `pos` of the file whose inode is `n`, `None` in a hole. */
  function FileByte(v: Vol, n: Inode, pos: nat): (r: Option<u8>) {
    if pos / BLOCK_SIZE >= MAX_BLOCKS || Deref(v, n, DataAddr(pos / BLOCK_SIZE)) == 0 then None
    else Some(BlockAt(v, Deref(v, n, DataAddr(pos / BLOCK_SIZE)))[pos % BLOCK_SIZE])
  }

  /** The byte sought through the tiers, with the numbers spelt out: 28 pointers in the inode, 128 in the
      indirect block, 128 times 128 behind the double-indirect block, four bytes each. */
  lemma FileByteTiers(v: Vol, n: Inode, pos: nat)
    ensures var bi := pos / 512;
            var mid := if n.double == 0 || bi < 156 || bi >= 16540 then 0
                       else Rd32(BlockAt(v, n.double), (bi - 156) / 128 * 4);
            var p := if bi < 28 then n.direct[bi]
                     else if bi < 156 then (if n.indirect == 0 then 0 else Rd32(BlockAt(v, n.indirect), (bi - 28) * 4))
                     else if mid == 0 then 0 else Rd32(BlockAt(v, mid), (bi - 156) % 128 * 4);
            FileByte(v, n, pos) == if p == 0 then None else Some(BlockAt(v, p)[pos % 512])
  {
  }

  /** Byte `pos` of inode number `ino`. */
  function InoByte(v: Vol, ino: nat, pos: nat): (r: Option<u8>)
    requires ino < |v.inodes|
  {
    FileByte(v, v.inodes[ino], pos)
  }

  /** Position `pos` lies in one of the blocks that bytes `[from, to)` touch. */
  predicate Touched(pos: nat, from: nat, to: nat) {
    from < to && from / BLOCK_SIZE <= pos / BLOCK_SIZE <= (to - 1) / BLOCK_SIZE
  }

  /** Position `pos` after `d` was stored at `offset`. */
  ghost predicate WroteAt(v: Vol, v': Vol, ino: nat, offset: nat, d: seq<u8>, pos: nat)
    requires ino < |v.inodes| == |v'.inodes|
  {
    InoByte(v', ino, pos) ==
      if offset <= pos < offset + |d| then Some(d[pos - offset])
      else if InoByte(v, ino, pos).Some? then InoByte(v, ino, pos)
      else if Touched(pos, offset, offset + |d|) then Some(0)
      else None
  }

  /** The contents after `d` was stored at `offset`: the range reads back as `d`, every other
      mapped byte is unchanged, and the rest of a freshly mapped block is zero. */
  ghost predicate Wrote(v: Vol, v': Vol, ino: nat, offset: nat, d: seq<u8>)
    requires ino < |v.inodes| == |v'.inodes|
  {
    forall pos: nat :: WroteAt(v, v', ino, offset, d, pos)
  }

  /** No byte of any other inode changes, nor does the inode itself. */
  ghost predicate OthersSame(v: Vol, v': Vol, ino: nat)
    requires |v.inodes| == |v'.inodes|
  {
    && (forall i :: 0 <= i < |v.inodes| && i != ino ==> v'.inodes[i] == v.inodes[i])
    && (forall i, pos: nat :: 0 <= i < |v.inodes| && i != ino ==> InoByte(v', i, pos) == InoByte(v, i, pos))
  }

  /** Blocks owned through data pointers keep their bytes and pointers while a file grows. */
  lemma GrowsKeepsPointers(v: Vol, o: Owner, v': Vol, o': Owner, ino: nat, k: Key)
    requires Owns(v, o) && Owns(v', o') && Grows(v, o, v', o', ino) && GoodKey(k)
    ensures KeyPtr(v, k) != 0 ==> KeyPtr(v', k) == KeyPtr(v, k)
    ensures k.ino != ino ==> KeyPtr(v', k) == KeyPtr(v, k)
    ensures KeyPtr(v, k) == 0 && KeyPtr(v', k) != 0 ==>
              KeyPtr(v', k) in o' && KeyPtr(v', k) !in o && o'[KeyPtr(v', k)] == k
  {
  }

  /** One byte of inode `i` before and after growing inode `ino`. */
  lemma GrowsByte(v: Vol, o: Owner, v': Vol, o': Owner, ino: nat, i: nat, pos: nat)
    requires Owns(v, o) && Owns(v', o') && Grows(v, o, v', o', ino) && i < INODE_COUNT
    ensures InoByte(v, i, pos).Some? || i != ino ==> InoByte(v', i, pos) == InoByte(v, i, pos)
    ensures InoByte(v, i, pos).None? && InoByte(v', i, pos).Some? ==>
              && InoByte(v', i, pos) == Some(0)
              && pos / BLOCK_SIZE < MAX_BLOCKS
              && KeyPtr(v', Key(i, DataAddr(pos / BLOCK_SIZE))) in o'
              && KeyPtr(v', Key(i, DataAddr(pos / BLOCK_SIZE))) !in o
              && o'[KeyPtr(v', Key(i, DataAddr(pos / BLOCK_SIZE)))] == Key(i, DataAddr(pos / BLOCK_SIZE))
  {
    if pos / BLOCK_SIZE < MAX_BLOCKS {
      GrowsKeepsPointers(v, o, v', o', ino, Key(i, DataAddr(pos / BLOCK_SIZE)));
    }
  }

  /** Overwriting a data block keeps every pointer, hence ownership. */
  lemma OwnsWriteData(v: Vol, owner: Owner, b: nat, blk: Block)
    requires Owns(v, owner) && b in owner && !IsIndex(owner[b].addr)
    ensures Owns(Vol(v.l, v.used, v.inodes, v.data[b := blk]), owner)
    ensures forall k: Key :: GoodKey(k) ==> KeyPtr(Vol(v.l, v.used, v.inodes, v.data[b := blk]), k) == KeyPtr(v, k)
  {
    var v' := Vol(v.l, v.used, v.inodes, v.data[b := blk]);
    forall k: Key | GoodKey(k) ensures KeyPtr(v', k) == KeyPtr(v, k) {
      assert KeyPtr(v, Key(k.ino, Indirect)) != b;
      assert KeyPtr(v, Key(k.ino, Double)) != b;
      if k.addr.Leaf? {
        assert KeyPtr(v, Key(k.ino, Mid(k.addr.i))) != b;
      }
    }
  }

  /** Overwriting the block behind file block `bi` of `ino` changes those 512 bytes only. */
  lemma WriteDataByte(v: Vol, owner: Owner, b: nat, blk: Block, ino: nat, bi: nat, i: nat, pos: nat)
    requires Owns(v, owner) && bi < MAX_BLOCKS && ino < INODE_COUNT && i < INODE_COUNT
    requires b in owner && owner[b] == Key(ino, DataAddr(bi))
    ensures InoByte(Vol(v.l, v.used, v.inodes, v.data[b := blk]), i, pos) ==
            if i == ino && pos / BLOCK_SIZE == bi then Some(blk[pos % BLOCK_SIZE]) else InoByte(v, i, pos)
  {
    OwnsWriteData(v, owner, b, blk);
    assert KeyPtr(v, owner[b]) == b;
    if pos / BLOCK_SIZE < MAX_BLOCKS {
      var k := Key(i, DataAddr(pos / BLOCK_SIZE));
      if KeyPtr(v, k) == b {
        DataAddrInjective(pos / BLOCK_SIZE, bi);
      }
    }
  }

  /** `read_at`: the bytes from `offset` on, at most `len` and none beyond the size; fewer only at the end of
      the file or at a hole. */
  method ReadAt(st: Store, ino: u32, offset: nat, len: nat, ghost owner: Owner) returns (out: seq<u8>)
    requires st.Valid() && ino < INODE_COUNT && Owns(st.vol, owner)
    modifies st`disk, st`vol, st.cache
    ensures st.Valid() && st.vol == old(st.vol)
    ensures |out| <= len && (out != [] ==> offset + |out| <= st.vol.inodes[ino].size)
    ensures forall i :: 0 <= i < |out| ==> InoByte(st.vol, ino, offset + i) == Some(out[i])
    ensures |out| == len || offset + |out| >= st.vol.inodes[ino].size || InoByte(st.vol, ino, offset + |out|) == None
  {
    var node := st.ReadInode(ino);
    out := [];
    var want := Wanted(node.size, offset, len);
    while |out| < want
      invariant st.Valid() && st.vol == old(st.vol) && |out| <= want
      invariant forall i :: 0 <= i < |out| ==> InoByte(st.vol, ino, offset + i) == Some(out[i])
    {
      var pos := offset + |out|;
      var chunk := ReadChunk(st, node, pos, want - |out|, ino, owner);
      if chunk.None? {
        break;
      }
      out := out + chunk.value;
    }
  }

  /** One round of the `read_at` loop: the rest of the block under `pos`, at most `most` bytes. */
  method ReadChunk(st: Store, node: Inode, pos: nat, most: nat, ghost ino: nat, ghost owner: Owner)
    returns (chunk: Option<seq<u8>>)
    requires st.Valid() && ino < INODE_COUNT && Owns(st.vol, owner) && st.vol.inodes[ino] == node && most > 0
    modifies st`disk, st`vol, st.cache
    ensures st.Valid() && st.vol == old(st.vol)
    ensures chunk.None? ==> InoByte(st.vol, ino, pos) == None
    ensures chunk.Some? ==> 0 < |chunk.value| <= most
    ensures chunk.Some? ==> forall i :: 0 <= i < |chunk.value| ==> InoByte(st.vol, ino, pos + i) == Some(chunk.value[i])
  {
    assert With(st.vol, ino, node) == st.vol;
    var r, node', owner' := BlockFor(st, node, pos / BLOCK_SIZE, false, ino, owner);
    if r.None? {
      return None;
    }
    PointerOwned(st.vol, ino, node, owner, DataAddr(pos / BLOCK_SIZE));
    var block := st.ReadData(r.value);
    var within := pos % BLOCK_SIZE;
    var n := if most < BLOCK_SIZE - within then most else BLOCK_SIZE - within;
    var bytes := block[within..within + n];
    forall i | 0 <= i < |bytes| ensures InoByte(st.vol, ino, pos + i) == Some(bytes[i]) {
      SameBlock(pos, i);
    }
    return Some(bytes);
  }

  /** How much of `len` bytes from `offset` lies inside a file of `size` bytes. */
  function Wanted(size: nat, offset: nat, len: nat): (r: nat) {
    if offset >= size then 0 else if size - offset < len then size - offset else len
  }

  /** Bytes up to the end of the block share its block number. */
  lemma SameBlock(pos: nat, i: nat)
    requires pos % BLOCK_SIZE + i < BLOCK_SIZE
    ensures (pos + i) / BLOCK_SIZE == pos / BLOCK_SIZE && (pos + i) % BLOCK_SIZE == pos % BLOCK_SIZE + i
  {
  }

  /** The block with `d` copied over its bytes from `within` on. */
  function Splice(block: Block, within: nat, d: seq<u8>): (r: Block)
    requires within + |d| <= BLOCK_SIZE
    ensures forall q :: 0 <= q < BLOCK_SIZE ==> r[q] == if within <= q < within + |d| then d[q - within] else block[q]
  {
    block[..within] + d + block[within + |d|..]
  }

  /** One round of the `write_at` loop: map the block under `pos`, store `d` in it. */
  method WriteChunk(st: Store, node: Inode, pos: nat, d: seq<u8>, ghost ino: nat, ghost owner: Owner)
    returns (ok: bool, node': Inode, ghost owner': Owner)
    requires st.Valid() && ino < INODE_COUNT && Owns(With(st.vol, ino, node), owner)
    requires 0 < |d| <= BLOCK_SIZE - pos % BLOCK_SIZE
    modifies st`disk, st`vol, st.cache
    ensures st.Valid() && Owns(With(st.vol, ino, node'), owner')
    ensures st.vol.inodes == old(st.vol).inodes && st.vol.l == old(st.vol).l
    ensures node'.kind == node.kind && node'.nlink == node.nlink && node'.size == node.size
    ensures OthersSame(With(old(st.vol), ino, node), With(st.vol, ino, node'), ino)
    ensures Wrote(With(old(st.vol), ino, node), With(st.vol, ino, node'), ino, pos, if ok then d else [])
    ensures SameLost(owner, owner')
    ensures !ok ==> pos / BLOCK_SIZE >= MAX_BLOCKS || Full(st.vol)
    ensures !ok && pos / BLOCK_SIZE < NDIRECT ==> st.vol == old(st.vol) && node' == node && owner' == owner
    ensures pos / BLOCK_SIZE < NDIRECT ==> (ok <==> node.direct[pos / BLOCK_SIZE] != 0 || !Full(old(st.vol)))
    ensures pos / BLOCK_SIZE < NDIRECT ==> node'.indirect == node.indirect && node'.double == node.double
  {
    ghost var v := With(st.vol, ino, node);
    var r;
    r, node', owner' := BlockFor(st, node, pos / BLOCK_SIZE, true, ino, owner);
    ghost var w := With(st.vol, ino, node');
    GrowsLost(v, owner, w, owner', ino);
    if r.None? {
      GrewNothing(v, owner, w, owner', ino, pos);
      return false, node', owner';
    }
    ghost var b := r.value;
    PointerOwned(st.vol, ino, node', owner', DataAddr(pos / BLOCK_SIZE));
    ghost var block' := Splice(w.data[b], pos % BLOCK_SIZE, d);
    assert ChunkStored(v, owner, w, owner', ino, pos, d, b, block');
    ChunkWrote(v, owner, w, owner', ino, pos, d, b, block');
    PatchBlock(st, r.value, pos % BLOCK_SIZE, d);
    assert With(st.vol, ino, node') == Vol(w.l, w.used, w.inodes, w.data[b := block']);
    ok := true;
  }

  /** Reads a data block, copies `d` over its bytes from `within` on, and writes it back. */
  method PatchBlock(st: Store, b: u32, within: nat, d: seq<u8>)
    requires st.Valid() && st.vol.l.dataStart <= b < st.vol.l.total && within + |d| <= BLOCK_SIZE
    modifies st`disk, st`vol, st.cache
    ensures st.Valid()
    ensures st.vol == old(st.vol).(data := old(st.vol).data[b := Splice(old(st.vol).data[b], within, d)])
  {
    var block := st.ReadData(b);
    st.WriteData(b, Splice(block, within, d));
  }

  /** Growing that mapped no data block changes no byte. */
  lemma GrewNothing(v: Vol, o: Owner, w: Vol, o': Owner, ino: nat, pos: nat)
    requires Owns(v, o) && Owns(w, o') && Grows(v, o, w, o', ino) && ino < INODE_COUNT
    requires forall c :: c in o' && c !in o ==> IsIndex(o'[c].addr)
    ensures OthersSame(v, w, ino) && Wrote(v, w, ino, pos, [])
  {
    forall i, p: nat | 0 <= i < INODE_COUNT ensures InoByte(w, i, p) == InoByte(v, i, p) {
      GrowsByte(v, o, w, o', ino, i, p);
    }
  }

  /** A block mapped by growing and then patched with `d`. */
  ghost predicate ChunkStored(v: Vol, o: Owner, w: Vol, o': Owner, ino: nat, pos: nat, d: seq<u8>, b: nat, blk: Block) {
    && Owns(v, o) && Owns(w, o') && Grows(v, o, w, o', ino) && ino < INODE_COUNT
    && pos / BLOCK_SIZE < MAX_BLOCKS && 0 < |d| <= BLOCK_SIZE - pos % BLOCK_SIZE
    && b in o' && o'[b] == Key(ino, DataAddr(pos / BLOCK_SIZE))
    && (forall c :: c in o' && c !in o && !IsIndex(o'[c].addr) ==> c == b)
    && blk == Splice(w.data[b], pos % BLOCK_SIZE, d)
  }

  lemma ChunkWrote(v: Vol, o: Owner, w: Vol, o': Owner, ino: nat, pos: nat, d: seq<u8>, b: nat, blk: Block)
    requires ChunkStored(v, o, w, o', ino, pos, d, b, blk)
    ensures Owns(Vol(w.l, w.used, w.inodes, w.data[b := blk]), o')
    ensures OthersSame(v, Vol(w.l, w.used, w.inodes, w.data[b := blk]), ino)
    ensures Wrote(v, Vol(w.l, w.used, w.inodes, w.data[b := blk]), ino, pos, d)
  {
    OwnsWriteData(w, o', b, blk);
    var w' := Vol(w.l, w.used, w.inodes, w.data[b := blk]);
    forall i, p: nat | 0 <= i < INODE_COUNT && i != ino ensures InoByte(w', i, p) == InoByte(v, i, p) {
      GrowsByte(v, o, w, o', ino, i, p);
      WriteDataByte(w, o', b, blk, ino, pos / BLOCK_SIZE, i, p);
    }
    forall p: nat ensures WroteAt(v, w', ino, pos, d, p) {
      ChunkByte(v, o, w, o', ino, pos, d, b, blk, p);
    }
  }

  lemma ChunkByte(v: Vol, o: Owner, w: Vol, o': Owner, ino: nat, pos: nat, d: seq<u8>, b: nat, blk: Block, p: nat)
    requires ChunkStored(v, o, w, o', ino, pos, d, b, blk)
    ensures WroteAt(v, Vol(w.l, w.used, w.inodes, w.data[b := blk]), ino, pos, d, p)
  {
    var bi := pos / BLOCK_SIZE;
    WriteDataByte(w, o', b, blk, ino, bi, ino, p);
    GrowsByte(v, o, w, o', ino, ino, p);
    if p / BLOCK_SIZE == bi {
      MappedByte(w, o', b, ino, bi, p);
    } else if InoByte(v, ino, p).None? && InoByte(w, ino, p).Some? {
      DataAddrInjective(p / BLOCK_SIZE, bi);
    }
    ChunkLogic(pos, d, p, w.data[b], InoByte(v, ino, p), InoByte(w, ino, p),
        InoByte(Vol(w.l, w.used, w.inodes, w.data[b := blk]), ino, p));
  }

  /** The case analysis of `ChunkByte` on the three values of one byte. */
  lemma ChunkLogic(pos: nat, d: seq<u8>, p: nat, block: Block, before: Option<u8>, grown: Option<u8>, after: Option<u8>)
    requires 0 < |d| <= BLOCK_SIZE - pos % BLOCK_SIZE
    requires p / BLOCK_SIZE == pos / BLOCK_SIZE ==>
               grown == Some(block[p % BLOCK_SIZE]) && after == Some(Splice(block, pos % BLOCK_SIZE, d)[p % BLOCK_SIZE])
    requires p / BLOCK_SIZE != pos / BLOCK_SIZE ==> after == grown
    requires before.Some? ==> grown == before
    requires before.None? && grown.Some? ==> grown == Some(0) && p / BLOCK_SIZE == pos / BLOCK_SIZE
    ensures after ==
            if pos <= p < pos + |d| then Some(d[p - pos])
            else if before.Some? then before
            else if Touched(p, pos, pos + |d|) then Some(0)
            else None
  {
  }

  lemma MappedByte(w: Vol, o: Owner, b: nat, ino: nat, bi: nat, p: nat)
    requires Owns(w, o) && ino < INODE_COUNT && bi < MAX_BLOCKS && b in o && o[b] == Key(ino, DataAddr(bi))
             && p / BLOCK_SIZE == bi
    ensures InoByte(w, ino, p) == Some(w.data[b][p % BLOCK_SIZE])
  {
  }

  /** Two consecutive stores are one longer store. */
  lemma WroteTwice(v0: Vol, v1: Vol, v2: Vol, ino: nat, offset: nat, d1: seq<u8>, d2: seq<u8>)
    requires ino < |v0.inodes| == |v1.inodes| == |v2.inodes|
    requires Wrote(v0, v1, ino, offset, d1) && Wrote(v1, v2, ino, offset + |d1|, d2)
    ensures Wrote(v0, v2, ino, offset, d1 + d2)
  {
    forall p: nat ensures WroteAt(v0, v2, ino, offset, d1 + d2, p) {
      assert WroteAt(v0, v1, ino, offset, d1, p);
      assert WroteAt(v1, v2, ino, offset + |d1|, d2, p);
      TouchedJoin(p, offset, offset + |d1|, offset + |d1| + |d2|);
    }
  }

  lemma TouchedJoin(p: nat, a: nat, b: nat, c: nat)
    requires a <= b <= c
    ensures Touched(p, a, c) <==> Touched(p, a, b) || Touched(p, b, c)
  {
  }

  /** The state of `write_at` after storing `d`, with the inode still in memory. */
  ghost predicate Progress(v: Vol, cur: Vol, ino: nat, node: Inode, owner: Owner, offset: nat, d: seq<u8>)
    requires ino < INODE_COUNT == |v.inodes| == |cur.inodes|
  {
    && Owns(With(cur, ino, node), owner) && cur.l == v.l
    && node.kind == v.inodes[ino].kind && node.nlink == v.inodes[ino].nlink && node.size == v.inodes[ino].size
    && OthersSame(v, With(cur, ino, node), ino)
    && Wrote(v, With(cur, ino, node), ino, offset, d)
  }

  /** The data lie in one direct block, which is there or can be allocated. */
  ghost predicate Fits(v: Vol, n: Inode, offset: nat, data: seq<u8>)
    requires Shape(v)
  {
    var bi := offset / BLOCK_SIZE;
    offset % BLOCK_SIZE + |data| <= BLOCK_SIZE && bi < NDIRECT && (n.direct[bi] != 0 || !Full(v))
  }

  /** The `write_at` loop: whole chunks until the data is stored or no block can be mapped. */
  method WriteLoop(st: Store, node0: Inode, offset: nat, data: seq<u8>, ghost ino: nat, ghost owner: Owner)
    returns (done: nat, node: Inode, ghost owner': Owner)
    requires st.Valid() && ino < INODE_COUNT && Owns(st.vol, owner) && st.vol.inodes[ino] == node0
    modifies st`disk, st`vol, st.cache
    ensures st.Valid() && done <= |data|
    ensures Progress(old(st.vol), st.vol, ino, node, owner', offset, data[..done])
    ensures SameLost(owner, owner')
    ensures done < |data| ==> (offset + done) / BLOCK_SIZE >= MAX_BLOCKS || Full(st.vol)
    ensures Fits(old(st.vol), old(st.vol).inodes[ino], offset, data) ==> done == |data|
  {
    ghost var v := st.vol;
    assert With(v, ino, node0) == v;
    done, node, owner' := 0, node0, owner;
    var go := true;
    while go && done < |data|
      invariant st.Valid() && done <= |data|
      invariant Progress(v, st.vol, ino, node, owner', offset, data[..done]) && SameLost(owner, owner')
      invariant done == 0 && go ==> st.vol == v && node == node0
      invariant Fits(v, node0, offset, data) ==> go && (done == 0 || done == |data|)
      invariant !go ==> done < |data| && ((offset + done) / BLOCK_SIZE >= MAX_BLOCKS || Full(st.vol))
      decreases go, |data| - done
    {
      ghost var was := done;
      go, done, node, owner' := WriteRound(st, node, offset, data, done, ino, owner', v);
      assert was == 0 ==> data[was..] == data;
    }
  }

  /** One round of the loop: as much of the rest of `data` as fits in the block under its position. */
  method WriteRound(st: Store, node: Inode, offset: nat, data: seq<u8>, done: nat,
                    ghost ino: nat, ghost owner: Owner, ghost v: Vol)
    returns (go: bool, done': nat, node': Inode, ghost owner': Owner)
    requires st.Valid() && ino < INODE_COUNT == |v.inodes| && done < |data|
    requires Progress(v, st.vol, ino, node, owner, offset, data[..done])
    modifies st`disk, st`vol, st.cache
    ensures st.Valid() && SameLost(owner, owner') && if go then done < done' <= |data| else done' == done
    ensures Progress(v, st.vol, ino, node', owner', offset, data[..done'])
    ensures !go ==> (offset + done) / BLOCK_SIZE >= MAX_BLOCKS || Full(st.vol)
    ensures Fits(old(st.vol), node, offset + done, data[done..]) ==> go && done' == |data|
  {
    var pos := offset + done;
    var room := BLOCK_SIZE - pos % BLOCK_SIZE;
    var n := if |data| - done < room then |data| - done else room;
    ghost var w := With(st.vol, ino, node);
    go, node', owner' := WriteChunk(st, node, pos, data[done..done + n], ino, owner);
    WroteTwice(v, w, With(st.vol, ino, node'), ino, offset, data[..done], if go then data[done..done + n] else []);
    assert data[..done] + data[done..done + n] == data[..done + n] && data[..done] + [] == data[..done];
    done' := if go then done + n else done;
  }

  /** `write_at`: `done` bytes are stored, fewer than asked for only when the volume is full or
      the file's block limit is reached. */
  method WriteAt(st: Store, ino: u32, offset: nat, data: seq<u8>, ghost owner: Owner)
    returns (done: nat, ghost owner': Owner)
    requires st.Valid() && ino < INODE_COUNT && Owns(st.vol, owner)
    modifies st`disk, st`vol, st.cache
    ensures st.Valid() && Owns(st.vol, owner') && SameLost(owner, owner') && st.vol.l == old(st.vol).l
    ensures done <= |data|
    ensures Wrote(old(st.vol), st.vol, ino, offset, data[..done])
    ensures OthersSame(old(st.vol), st.vol, ino)
    ensures var n, n' := old(st.vol).inodes[ino], st.vol.inodes[ino];
            && n'.kind == n.kind && n'.nlink == n.nlink
            && n'.size == if offset + done > n.size then U32(offset + done) else n.size
    ensures done < |data| ==> (offset + done) / BLOCK_SIZE >= MAX_BLOCKS || Full(st.vol)
    ensures Fits(old(st.vol), old(st.vol).inodes[ino], offset, data) ==> done == |data|
  {
    var node := st.ReadInode(ino);
    ghost var v := st.vol;
    done, node, owner' := WriteLoop(st, node, offset, data, ino, owner);
    ghost var w := With(st.vol, ino, node);
    FinishWrite(st, ino, node, offset + done, owner');
    WroteTwice(v, w, st.vol, ino, offset, data[..done], []);
    assert data[..done] + [] == data[..done];
  }

  /** The tail of `write_at`: grow the size and persist the inode. */
  method FinishWrite(st: Store, ino: u32, node: Inode, newEnd: nat, ghost owner: Owner)
    requires st.Valid() && ino < INODE_COUNT && Owns(With(st.vol, ino, node), owner)
    modifies st`disk, st`vol, st.cache
    ensures st.Valid() && Owns(st.vol, owner) && st.vol.l == old(st.vol).l && st.vol.used == old(st.vol).used
    ensures st.vol.inodes[ino] == node.(size := if newEnd > node.size then U32(newEnd) else node.size)
    ensures OthersSame(With(old(st.vol), ino, node), st.vol, ino)
    ensures Wrote(With(old(st.vol), ino, node), st.vol, ino, newEnd, [])
  {
    ghost var w := With(st.vol, ino, node);
    var n := if newEnd > node.size
             then Inode(node.kind, node.nlink, U32(newEnd), node.direct, node.indirect, node.double)
             else node;
    SizeOnly(w, owner, ino, n, newEnd);
    assert With(w, ino, n) == With(st.vol, ino, n);
    st.PutInode(ino, n);
  }

  /** Changing only the size field keeps ownership and every byte of every file. */
  lemma SizeOnly(v: Vol, owner: Owner, ino: nat, n: Inode, end: nat)
    requires Owns(v, owner) && ino < INODE_COUNT
    requires n.direct == v.inodes[ino].direct && n.indirect == v.inodes[ino].indirect
             && n.double == v.inodes[ino].double
    ensures Owns(With(v, ino, n), owner)
    ensures forall i, pos: nat :: 0 <= i < INODE_COUNT ==> InoByte(With(v, ino, n), i, pos) == InoByte(v, i, pos)
    ensures Wrote(v, With(v, ino, n), ino, end, []) && OthersSame(v, With(v, ino, n), ino)
  {
    var v' := With(v, ino, n);
    forall k: Key | GoodKey(k) ensures KeyPtr(v', k) == KeyPtr(v, k) {
    }
    forall i, pos: nat | 0 <= i < INODE_COUNT ensures InoByte(v', i, pos) == InoByte(v, i, pos) {
      if pos / BLOCK_SIZE < MAX_BLOCKS {
        assert KeyPtr(v', Key(i, DataAddr(pos / BLOCK_SIZE))) == KeyPtr(v, Key(i, DataAddr(pos / BLOCK_SIZE)));
      }
    }
  }

  /** `truncate`: only the size becomes 0; the blocks and their bytes stay linked. */
  method Truncate(st: Store, ino: u32, ghost owner: Owner)
    requires st.Valid() && ino < INODE_COUNT && Owns(st.vol, owner)
    modifies st`disk, st`vol, st.cache
    ensures st.Valid() && Owns(st.vol, owner) && st.vol.l == old(st.vol).l
    ensures st.vol.inodes[ino] == old(st.vol).inodes[ino].(size := 0)
    ensures forall i, pos: nat :: 0 <= i < INODE_COUNT ==> InoByte(st.vol, i, pos) == InoByte(old(st.vol), i, pos)
    ensures OthersSame(old(st.vol), st.vol, ino)
  {
    var node := st.ReadInode(ino);
    var n := Inode(node.kind, node.nlink, 0, node.direct, node.indirect, node.double);
    SizeOnly(st.vol, owner, ino, n, 0);
    st.PutInode(ino, n);
  }
}
