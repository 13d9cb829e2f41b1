/** `free_indirect` and `free_all_blocks` (kernel/src/fs.rs): freeing an inode's blocks
    clears exactly the bits of the blocks that inode owns, over all three tiers. */
module BlockFree {
  import opened DiskFormat
  import opened BlockStore
  import opened BlockMap

  /** Some slot of the index block holds block number `b`. */
  ghost predicate PointsTo(blk: Block, b: nat) {
    exists s :: 0 <= s < PTRS_PER_BLOCK && Ptr(blk, s) == b
  }

  predicate IsChild(a: Addr, parent: Addr) {
    match a
    case Single(_) => parent.Indirect?
    case Mid(_) => parent.Double?
    case Leaf(i, _) => parent == Mid(i)
    case _ => false
  }

  function SlotOf(a: Addr): (s: nat)
    requires a.Single? || a.Mid? || a.Leaf?
  {
    match a case Single(i) => i case Mid(i) => i case Leaf(_, j) => j
  }

  /** What an index block points to is what the pointers under it own. */
  lemma ChildrenOf(v: Vol, owner: Owner, ino: nat, parent: Addr, iblk: nat)
    requires Owns(v, owner) && ino < INODE_COUNT && iblk in owner && owner[iblk] == Key(ino, parent) && IsIndex(parent)
    ensures forall s :: 0 <= s < PTRS_PER_BLOCK && Ptr(v.data[iblk], s) != 0 ==>
              Ptr(v.data[iblk], s) in owner && owner[Ptr(v.data[iblk], s)] == Key(ino, Child(parent, s))
    ensures forall b :: b in owner ==>
              (PointsTo(v.data[iblk], b) <==> owner[b].ino == ino && IsChild(owner[b].addr, parent))
  {
    var n := v.inodes[ino];
    assert KeyPtr(v, owner[iblk]) == iblk;
    forall s | 0 <= s < PTRS_PER_BLOCK
      ensures KeyPtr(v, Key(ino, Child(parent, s))) == Ptr(v.data[iblk], s)
    {
      DerefChild(v, n, parent, s);
    }
    forall b | b in owner
      ensures PointsTo(v.data[iblk], b) <==> owner[b].ino == ino && IsChild(owner[b].addr, parent)
    {
      if owner[b].ino == ino && IsChild(owner[b].addr, parent) {
        var s := SlotOf(owner[b].addr);
        assert owner[b].addr == Child(parent, s);
        assert KeyPtr(v, owner[b]) == b;
        assert Ptr(v.data[iblk], s) == b;
      }
    }
  }

  /** Only the bitmap differs. */
  ghost predicate OnlyUsed(v: Vol, v': Vol) {
    v'.l == v.l && |v'.used| == |v.used| && v'.inodes == v.inodes && v'.data == v.data
  }

  /** `free_indirect` */
  method FreeIndirect(st: Store, iblk: u32)
    requires st.Valid() && st.vol.l.dataStart <= iblk < st.vol.l.total
    requires forall s :: 0 <= s < PTRS_PER_BLOCK ==> Ptr(st.vol.data[iblk], s) < st.vol.l.total
    modifies st`disk, st`vol, st.cache
    ensures st.Valid() && OnlyUsed(old(st.vol), st.vol)
    ensures forall b :: 0 < b < st.vol.l.total ==>
              (st.vol.used[b] <==> old(st.vol).used[b] && b != iblk && !PointsTo(st.vol.data[iblk], b))
  {
    var blk := st.ReadData(iblk);
    for slot := 0 to PTRS_PER_BLOCK
      invariant st.Valid() && OnlyUsed(old(st.vol), st.vol)
      invariant forall b :: 0 < b < st.vol.l.total ==>
        (st.vol.used[b] <==> old(st.vol).used[b] && forall s :: 0 <= s < slot ==> Ptr(blk, s) != b)
    {
      var d := Ptr(blk, slot);
      if d != 0 {
        st.FreeBlock(d);
      }
    }
    st.FreeBlock(iblk);
  }

  /** `ino`'s pointers of the tiers up to the `k`-th direct one are freed. */
  predicate FreedDirect(key: Key, ino: nat, k: nat) { key.ino == ino && key.addr.Direct? && key.addr.i < k }
  predicate FreedSingle(key: Key, ino: nat) {
    key.ino == ino && (key.addr.Direct? || key.addr.Indirect? || key.addr.Single?)
  }

  predicate FreedMid(key: Key, ino: nat, k: nat) {
    || FreedSingle(key, ino)
    || (key.ino == ino && ((key.addr.Mid? && key.addr.i < k) || (key.addr.Leaf? && key.addr.i < k)))
  }

  /** The direct tier of `free_all_blocks`. */
  method FreeDirect(st: Store, node: Inode, ghost ino: nat, ghost owner: Owner)
    requires st.Valid() && ino < INODE_COUNT && Owns(st.vol, owner) && st.vol.inodes[ino] == node
    modifies st`disk, st`vol, st.cache
    ensures st.Valid() && OnlyUsed(old(st.vol), st.vol)
    ensures forall b :: st.vol.l.dataStart <= b < st.vol.l.total ==>
              (st.vol.used[b] <==> b in owner && !FreedDirect(owner[b], ino, NDIRECT))
  {
    ghost var v := st.vol;
    for i := 0 to NDIRECT
      invariant st.Valid() && OnlyUsed(v, st.vol)
      invariant forall b :: v.l.dataStart <= b < v.l.total ==>
        (st.vol.used[b] <==> b in owner && !FreedDirect(owner[b], ino, i))
    {
      assert KeyPtr(v, Key(ino, Direct(i))) == node.direct[i];
      if node.direct[i] != 0 {
        st.FreeBlock(node.direct[i]);
      }
      forall b | v.l.dataStart <= b < v.l.total
        ensures st.vol.used[b] <==> b in owner && !FreedDirect(owner[b], ino, i + 1)
      {
        if b in owner && owner[b] == Key(ino, Direct(i)) {
          assert KeyPtr(v, owner[b]) == b;
        }
      }
    }
  }

  /** The single-indirect tier. */
  method FreeSingle(st: Store, node: Inode, ghost ino: nat, ghost owner: Owner, ghost v: Vol)
    requires st.Valid() && ino < INODE_COUNT && Owns(v, owner) && v.inodes[ino] == node && OnlyUsed(v, st.vol)
    requires forall b :: v.l.dataStart <= b < v.l.total ==>
               (st.vol.used[b] <==> b in owner && !FreedDirect(owner[b], ino, NDIRECT))
    modifies st`disk, st`vol, st.cache
    ensures st.Valid() && OnlyUsed(v, st.vol)
    ensures forall b :: v.l.dataStart <= b < v.l.total ==>
              (st.vol.used[b] <==> b in owner && !FreedSingle(owner[b], ino))
  {
    assert KeyPtr(v, Key(ino, Indirect)) == node.indirect;
    if node.indirect != 0 {
      ChildrenOf(v, owner, ino, Indirect, node.indirect);
      FreeIndirect(st, node.indirect);
    }
    forall b | v.l.dataStart <= b < v.l.total
      ensures st.vol.used[b] <==> b in owner && !FreedSingle(owner[b], ino)
    {
      if b in owner && owner[b] != LOST {
        assert KeyPtr(v, owner[b]) == b;
      }
    }
  }

  /** One round of the double-indirect loop, as a step on the bitmap. */
  lemma FreedMidStep(v: Vol, owner: Owner, ino: nat, slot: nat, u: seq<bool>, u': seq<bool>, b: nat)
    requires Owns(v, owner) && ino < INODE_COUNT && slot < PTRS_PER_BLOCK && |u| == |u'| == v.l.total
    requires v.l.dataStart <= b < v.l.total && (u[b] <==> b in owner && !FreedMid(owner[b], ino, slot))
    requires var mid := KeyPtr(v, Key(ino, Mid(slot)));
             u'[b] <==> u[b] && (mid != 0 ==> b != mid && !PointsTo(v.data[mid], b))
    ensures u'[b] <==> b in owner && !FreedMid(owner[b], ino, slot + 1)
  {
    var mid := KeyPtr(v, Key(ino, Mid(slot)));
    if mid != 0 {
      ChildrenOf(v, owner, ino, Mid(slot), mid);
    }
    if b in owner && owner[b] != LOST {
      assert KeyPtr(v, owner[b]) == b;
    }
  }

  /** After all 128 slots only the double-indirect block itself is left. */
  lemma FreedDoubleEnd(v: Vol, owner: Owner, ino: nat, b: nat)
    requires Owns(v, owner) && ino < INODE_COUNT && v.l.dataStart <= b < v.l.total
    ensures b in owner && b != v.inodes[ino].double && !FreedMid(owner[b], ino, PTRS_PER_BLOCK) <==>
            b in owner && owner[b].ino != ino
  {
    assert KeyPtr(v, Key(ino, Double)) == v.inodes[ino].double;
    if b in owner && owner[b] != LOST {
      assert KeyPtr(v, owner[b]) == b;
    }
  }

  /** The double-indirect tier: every first-level block with its data, then the block itself. */
  method FreeDouble(st: Store, node: Inode, ghost ino: nat, ghost owner: Owner, ghost v: Vol)
    requires st.Valid() && ino < INODE_COUNT && Owns(v, owner) && v.inodes[ino] == node && OnlyUsed(v, st.vol)
    requires node.double != 0
    requires forall b :: v.l.dataStart <= b < v.l.total ==>
               (st.vol.used[b] <==> b in owner && !FreedSingle(owner[b], ino))
    modifies st`disk, st`vol, st.cache
    ensures st.Valid() && OnlyUsed(v, st.vol)
    ensures forall b :: v.l.dataStart <= b < v.l.total ==>
              (st.vol.used[b] <==> b in owner && owner[b].ino != ino)
  {
    assert KeyPtr(v, Key(ino, Double)) == node.double;
    ChildrenOf(v, owner, ino, Double, node.double);
    var blk := st.ReadData(node.double);
    for slot := 0 to PTRS_PER_BLOCK
      invariant st.Valid() && OnlyUsed(v, st.vol)
      invariant forall b :: v.l.dataStart <= b < v.l.total ==>
        (st.vol.used[b] <==> b in owner && !FreedMid(owner[b], ino, slot))
    {
      ghost var u := st.vol.used;
      var mid := Ptr(blk, slot);
      DerefChild(v, node, Double, slot);
      if mid != 0 {
        ChildrenOf(v, owner, ino, Mid(slot), mid);
        FreeIndirect(st, mid);
      }
      forall b | v.l.dataStart <= b < v.l.total
        ensures st.vol.used[b] <==> b in owner && !FreedMid(owner[b], ino, slot + 1)
      {
        FreedMidStep(v, owner, ino, slot, u, st.vol.used, b);
      }
    }
    st.FreeBlock(node.double);
    forall b | v.l.dataStart <= b < v.l.total
      ensures st.vol.used[b] <==> b in owner && owner[b].ino != ino
    {
      FreedDoubleEnd(v, owner, ino, b);
    }
  }

  /** `free_all_blocks`: afterwards the used data blocks are those of the other inodes. */
  method FreeAllBlocks(st: Store, node: Inode, ghost ino: nat, ghost owner: Owner)
    requires st.Valid() && ino < INODE_COUNT && Owns(st.vol, owner) && st.vol.inodes[ino] == node
    modifies st`disk, st`vol, st.cache
    ensures st.Valid() && OnlyUsed(old(st.vol), st.vol)
    ensures forall b :: st.vol.l.dataStart <= b < st.vol.l.total ==>
              (st.vol.used[b] <==> b in owner && owner[b].ino != ino)
  {
    ghost var v := st.vol;
    FreeDirect(st, node, ino, owner);
    FreeSingle(st, node, ino, owner, v);
    if node.double != 0 {
      FreeDouble(st, node, ino, owner, v);
    } else {
      forall b | v.l.dataStart <= b < v.l.total
        ensures st.vol.used[b] <==> b in owner && owner[b].ino != ino
      {
        if b in owner && owner[b] != LOST {
          assert KeyPtr(v, owner[b]) == b;
        }
      }
    }
  }

  /** The ownership map without inode `ino`. */
  function Without(owner: Owner, ino: nat): (r: Owner) {
    map b | b in owner && owner[b].ino != ino :: owner[b]
  }

  lemma OwnsWithout(v: Vol, v': Vol, owner: Owner, ino: nat)
    requires Owns(v, owner) && OnlyUsed(v, v') && ino < INODE_COUNT
    requires forall b :: v.l.dataStart <= b < v.l.total ==> (v'.used[b] <==> b in owner && owner[b].ino != ino)
    ensures Owns(With(v', ino, NewInode(T_FREE, 0)), Without(owner, ino)) && SameLost(owner, Without(owner, ino))
  {
    var w := With(v', ino, NewInode(T_FREE, 0));
    forall k: Key | GoodKey(k)
      ensures KeyPtr(w, k) == if k.ino == ino then 0 else KeyPtr(v, k)
    {
    }
  }

  /** Giving an inode's blocks back leaves the disk full only if it was full and the inode had none. */
  lemma FullWithout(v: Vol, v1: Vol, owner: Owner, ino: nat)
    requires Owns(v, owner) && Owns(v1, Without(owner, ino)) && v1.l == v.l
    ensures Full(v1) <==> Full(v) && !HoldsBlocks(owner, ino)
  {
    if Full(v1) {
      forall b | b in owner ensures owner[b].ino != ino {
        assert v1.used[b];
      }
      forall b | v.l.dataStart <= b < v.l.total ensures v.used[b] {
        assert v1.used[b];
      }
    }
    if Full(v) && !HoldsBlocks(owner, ino) {
      forall b | v1.l.dataStart <= b < v1.l.total ensures v1.used[b] {
        assert v.used[b];
      }
    }
  }

  /** Frees the blocks of `ino` and writes the empty inode back. */
  method Release(st: Store, ino: u32, ghost owner: Owner)
    requires st.Valid() && ino < INODE_COUNT && Owns(st.vol, owner)
    modifies st`disk, st`vol, st.cache
    ensures st.Valid() && Owns(st.vol, Without(owner, ino)) && SameLost(owner, Without(owner, ino))
    ensures st.vol.l == old(st.vol).l && st.vol.data == old(st.vol).data
    ensures st.vol.inodes == old(st.vol).inodes[ino := NewInode(T_FREE, 0)]
  {
    ghost var v := st.vol;
    var node := st.ReadInode(ino);
    FreeAllBlocks(st, node, ino, owner);
    OwnsWithout(v, st.vol, owner, ino);
    st.PutInode(ino, NewInode(T_FREE, 0));
  }
}
