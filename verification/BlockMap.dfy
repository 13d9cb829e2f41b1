/** The three-tier block map of kernel/src/fs.rs (28 direct pointers, one indirect block,
    one double-indirect block) and block ownership.

    An `Addr` names one pointer an inode can hold, directly or through index blocks. `Owns`
    says that a ghost map `owner` from blocks to pointers is a bijection between the blocks
    marked used and the non-zero pointers of all inodes, except that it marks as `LOST` the blocks
    that are used although nothing points to them: no block is shared, and no metadata block is
    ever referenced. Ownership is exact when no block is lost. */
module BlockMap {
  import opened Wrappers
  import opened DiskFormat
  import opened BlockStore

  datatype Addr = Direct(i: nat) | Indirect | Single(i: nat) | Double | Mid(i: nat) | Leaf(i: nat, j: nat)

  datatype Key = Key(ino: nat, addr: Addr)

  const MAX_BLOCKS := NDIRECT + PTRS_PER_BLOCK + PTRS_PER_BLOCK * PTRS_PER_BLOCK

  predicate GoodAddr(a: Addr) {
    match a
    case Direct(i) => i < NDIRECT
    case Single(i) => i < PTRS_PER_BLOCK
    case Mid(i) => i < PTRS_PER_BLOCK
    case Leaf(i, j) => i < PTRS_PER_BLOCK && j < PTRS_PER_BLOCK
    case _ => true
  }

  predicate GoodKey(k: Key) { k.ino < INODE_COUNT && GoodAddr(k.addr) }

  /** Pointers to index blocks, as opposed to pointers to file data. */
  predicate IsIndex(a: Addr) { a.Indirect? || a.Double? || a.Mid? }

  /** The pointer held in slot `s` of the index block that `parent` points to. */
  function Child(parent: Addr, s: nat): (a: Addr)
    requires IsIndex(parent)
  {
    match parent
    case Indirect => Single(s)
    case Double => Mid(s)
    case Mid(i) => Leaf(i, s)
  }

  /** The pointer that maps file block `bi`. */
  function DataAddr(bi: nat): (a: Addr)
    requires bi < MAX_BLOCKS
    ensures GoodAddr(a) && !IsIndex(a)
  {
    if bi < NDIRECT then Direct(bi)
    else if bi < NDIRECT + PTRS_PER_BLOCK then Single(bi - NDIRECT)
    else Leaf((bi - NDIRECT - PTRS_PER_BLOCK) / PTRS_PER_BLOCK, (bi - NDIRECT - PTRS_PER_BLOCK) % PTRS_PER_BLOCK)
  }

  lemma DataAddrInjective(x: nat, y: nat)
    requires x < MAX_BLOCKS && y < MAX_BLOCKS && DataAddr(x) == DataAddr(y)
    ensures x == y
  {
  }

  function Ptr(blk: Block, s: nat): (p: u32)
    requires s < PTRS_PER_BLOCK
  {
    Rd32(blk, s * 4)
  }

  function BlockAt(v: Vol, b: nat): (r: Block) {
    if b < |v.data| then v.data[b] else ZeroBlock()
  }

  function MidPtr(v: Vol, n: Inode, i: nat): (p: u32)
    requires i < PTRS_PER_BLOCK
  {
    if n.double == 0 then 0 else Ptr(BlockAt(v, n.double), i)
  }

  /** The block that pointer `a` of inode `n` names, 0 if there is none. */
  function Deref(v: Vol, n: Inode, a: Addr): (p: u32)
    requires GoodAddr(a)
  {
    match a
    case Direct(i) => n.direct[i]
    case Indirect => n.indirect
    case Single(i) => if n.indirect == 0 then 0 else Ptr(BlockAt(v, n.indirect), i)
    case Double => n.double
    case Mid(i) => MidPtr(v, n, i)
    case Leaf(i, j) => if MidPtr(v, n, i) == 0 then 0 else Ptr(BlockAt(v, MidPtr(v, n, i)), j)
  }

  function KeyPtr(v: Vol, k: Key): (p: u32)
    requires GoodKey(k) && |v.inodes| == INODE_COUNT
  {
    Deref(v, v.inodes[k.ino], k.addr)
  }

  type Owner = map<nat, Key>

  /** Stands for no pointer at all. */
  const LOST := Key(INODE_COUNT, Indirect)

  /** Block ownership: who points to each used block, if anybody does. */
  ghost predicate Owns(v: Vol, owner: Owner) {
    && Shape(v)
    && (forall b :: v.l.dataStart <= b < v.l.total ==> (v.used[b] <==> b in owner))
    && (forall b :: b in owner ==> v.l.dataStart <= b < v.l.total)
    && (forall b :: b in owner && owner[b] != LOST ==> GoodKey(owner[b]) && KeyPtr(v, owner[b]) == b)
    && (forall k: Key :: GoodKey(k) ==>
         KeyPtr(v, k) == 0 || (KeyPtr(v, k) in owner && owner[KeyPtr(v, k)] == k))
  }

  /** Block `b` is used and nothing points to it. */
  predicate IsLost(owner: Owner, b: nat) { b in owner && owner[b] == LOST }

  /** No block is lost. */
  predicate Exact(owner: Owner) { forall b :: b in owner ==> owner[b] != LOST }

  ghost predicate SameLost(owner: Owner, owner': Owner) { forall b: nat :: IsLost(owner', b) <==> IsLost(owner, b) }

  /** Ownership spelt out: a data block is used exactly when some inode points at it or it is lost, and not
      both; the block has one pointer only; and a pointer never names a metadata block. */
  lemma OwnsIsExact(v: Vol, owner: Owner)
    requires Owns(v, owner)
    ensures forall b: nat :: v.l.dataStart <= b < v.l.total ==>
              (IsLost(owner, b) <==> v.used[b] && forall k: Key :: GoodKey(k) ==> KeyPtr(v, k) != b)
    ensures forall b: nat :: v.l.dataStart <= b < v.l.total && !IsLost(owner, b) ==>
              (v.used[b] <==> exists k: Key :: GoodKey(k) && KeyPtr(v, k) == b)
    ensures forall k1: Key, k2: Key :: GoodKey(k1) && GoodKey(k2) && KeyPtr(v, k1) == KeyPtr(v, k2) != 0 ==> k1 == k2
    ensures forall k: Key :: GoodKey(k) && KeyPtr(v, k) != 0 ==>
              v.l.dataStart <= KeyPtr(v, k) < v.l.total && v.used[KeyPtr(v, k)]
  {
  }

  /** A lost block is lost in every account of the volume. */
  lemma LostForAll(v: Vol, owner: Owner, other: Owner)
    requires Owns(v, owner) && Owns(v, other)
    ensures other == owner
  {
    forall b | b in owner ensures b in other && other[b] == owner[b] {
    }
  }

  /** The volume with inode `ino` replaced by the in-memory copy `n`. */
  function With(v: Vol, ino: nat, n: Inode): (r: Vol)
    requires ino < |v.inodes|
  {
    Vol(v.l, v.used, v.inodes[ino := n], v.data)
  }

  /** The account once inode `ino` has been overwritten without freeing its blocks. */
  function Forgotten(owner: Owner, ino: nat): (r: Owner) {
    map b | b in owner :: if owner[b].ino == ino then LOST else owner[b]
  }

  predicate HoldsBlocks(owner: Owner, ino: nat) { exists b :: b in owner && owner[b].ino == ino }

  /** Overwriting an inode with one that has no pointers loses its blocks, and nothing else. */
  lemma OwnsForgotten(v: Vol, owner: Owner, ino: nat, n: Inode)
    requires Owns(v, owner) && ino < INODE_COUNT && n.indirect == 0 == n.double
    requires forall i :: 0 <= i < NDIRECT ==> n.direct[i] == 0
    ensures Owns(With(v, ino, n), Forgotten(owner, ino))
  {
    forall k: Key | GoodKey(k) ensures KeyPtr(With(v, ino, n), k) == if k.ino == ino then 0 else KeyPtr(v, k) {
    }
  }

  lemma NothingForgotten(owner: Owner, ino: nat)
    requires ino < INODE_COUNT
    ensures Forgotten(owner, ino) == owner <==> !HoldsBlocks(owner, ino)
    ensures Exact(Forgotten(owner, ino)) <==> Exact(owner) && !HoldsBlocks(owner, ino)
  {
    if HoldsBlocks(owner, ino) {
      var b :| b in owner && owner[b].ino == ino;
      assert IsLost(Forgotten(owner, ino), b);
    }
  }

  /** Linking the fresh block `b` under pointer `key`, when that pointer is the only one that
      changed value, extends the ownership map by exactly that pair. */
  lemma OwnsLink(v: Vol, v': Vol, owner: Owner, key: Key, b: nat)
    requires Owns(v, owner) && Shape(v') && v'.l == v.l
    requires v.l.dataStart <= b < v.l.total && !v.used[b] && v'.used == v.used[b := true]
    requires GoodKey(key) && KeyPtr(v, key) == 0
    requires forall k: Key :: GoodKey(k) ==> KeyPtr(v', k) == if k == key then b else KeyPtr(v, k)
    ensures Owns(v', owner[b := key])
  {
  }

  lemma ZeroPtrs()
    ensures forall s :: 0 <= s < PTRS_PER_BLOCK ==> Ptr(ZeroBlock(), s) == 0
  {
  }

  /** `n` with one of its own pointers set. */
  function SetPtr(n: Inode, a: Addr, b: u32): (r: Inode)
    requires GoodAddr(a) && (a.Direct? || a.Indirect? || a.Double?)
  {
    match a
    case Direct(i) => Inode(n.kind, n.nlink, n.size, n.direct[i := b], n.indirect, n.double)
    case Indirect => Inode(n.kind, n.nlink, n.size, n.direct, b, n.double)
    case Double => Inode(n.kind, n.nlink, n.size, n.direct, n.indirect, b)
  }

  /** A fresh block linked directly from the inode. */
  lemma OwnsSetPtr(v: Vol, owner: Owner, ino: nat, a: Addr, b: u32)
    requires Owns(v, owner) && GoodKey(Key(ino, a)) && (a.Direct? || a.Indirect? || a.Double?)
    requires KeyPtr(v, Key(ino, a)) == 0
    requires v.l.dataStart <= b < v.l.total && !v.used[b]
    ensures Owns(With(Allocated(v, b), ino, SetPtr(v.inodes[ino], a, b)), owner[b := Key(ino, a)])
  {
    var v' := With(Allocated(v, b), ino, SetPtr(v.inodes[ino], a, b));
    var key := Key(ino, a);
    ZeroPtrs();
    forall k: Key | GoodKey(k) ensures KeyPtr(v', k) == if k == key then b else KeyPtr(v, k) {
      DerefAfterSetPtr(v, owner, ino, a, b, k);
    }
    OwnsLink(v, v', owner, key, b);
  }

  lemma DerefAfterSetPtr(v: Vol, owner: Owner, ino: nat, a: Addr, b: u32, k: Key)
    requires Owns(v, owner) && GoodKey(Key(ino, a)) && (a.Direct? || a.Indirect? || a.Double?)
    requires KeyPtr(v, Key(ino, a)) == 0
    requires v.l.dataStart <= b < v.l.total && !v.used[b]
    requires GoodKey(k)
    ensures KeyPtr(With(Allocated(v, b), ino, SetPtr(v.inodes[ino], a, b)), k) ==
            if k == Key(ino, a) then b else KeyPtr(v, k)
  {
    FreshUnnamed(v, owner, b, Key(k.ino, Indirect));
    FreshUnnamed(v, owner, b, Key(k.ino, Double));
    if k.addr.Leaf? {
      FreshUnnamed(v, owner, b, Key(k.ino, Mid(k.addr.i)));
    }
    DerefSetPtr(v, ino, a, b, k);
  }

  /** No pointer names a free block. */
  lemma FreshUnnamed(v: Vol, owner: Owner, b: u32, k: Key)
    requires Owns(v, owner) && v.l.dataStart <= b < v.l.total && !v.used[b] && GoodKey(k)
    ensures KeyPtr(v, k) != b
  {
  }

  lemma DerefSetPtr(v: Vol, ino: nat, a: Addr, b: u32, k: Key)
    requires |v.inodes| == INODE_COUNT && |v.used| == |v.data| && 0 < b < |v.data|
    requires GoodKey(Key(ino, a)) && (a.Direct? || a.Indirect? || a.Double?) && KeyPtr(v, Key(ino, a)) == 0
    requires GoodKey(k) && KeyPtr(v, Key(k.ino, Indirect)) != b && KeyPtr(v, Key(k.ino, Double)) != b
    requires k.addr.Leaf? ==> KeyPtr(v, Key(k.ino, Mid(k.addr.i))) != b
    ensures KeyPtr(With(Allocated(v, b), ino, SetPtr(v.inodes[ino], a, b)), k) ==
            if k == Key(ino, a) then b else KeyPtr(v, k)
  {
    ZeroPtrs();
  }

  /** A fresh block linked from slot `s` of the index block `iblk`. */
  lemma OwnsSetSlot(v: Vol, owner: Owner, ino: nat, parent: Addr, iblk: nat, s: nat, b: u32, blk: Block)
    requires Owns(v, owner) && GoodKey(Key(ino, parent)) && IsIndex(parent) && s < PTRS_PER_BLOCK
    requires iblk in owner && owner[iblk] == Key(ino, parent)
    requires Ptr(v.data[iblk], s) == 0
    requires v.l.dataStart <= b < v.l.total && !v.used[b]
    requires blk == Wr32(v.data[iblk], s * 4, b)
    ensures var a := Allocated(v, b);
            Owns(Vol(a.l, a.used, a.inodes, a.data[iblk := blk]), owner[b := Key(ino, Child(parent, s))])
  {
    var a := Allocated(v, b);
    var v' := Vol(a.l, a.used, a.inodes, a.data[iblk := blk]);
    var key := Key(ino, Child(parent, s));
    forall k: Key | GoodKey(k) ensures KeyPtr(v', k) == if k == key then b else KeyPtr(v, k) {
      DerefAfterSetSlot(v, v', owner, ino, parent, iblk, s, b, k);
    }
    OwnsLink(v, v', owner, key, b);
  }

  ghost predicate SlotSet(v: Vol, v': Vol, owner: Owner, ino: nat, parent: Addr, iblk: nat, s: nat, b: u32) {
    && Owns(v, owner) && GoodKey(Key(ino, parent)) && IsIndex(parent) && s < PTRS_PER_BLOCK
    && iblk in owner && owner[iblk] == Key(ino, parent)
    && Ptr(v.data[iblk], s) == 0
    && v.l.dataStart <= b < v.l.total && !v.used[b]
    && v' == Vol(v.l, v.used[b := true], v.inodes, v.data[b := ZeroBlock()][iblk := Wr32(v.data[iblk], s * 4, b)])
  }

  /** Reading slot `t` of the index block under `par` sees the new pointer in one place only. */
  lemma SlotRead(v: Vol, v': Vol, owner: Owner, ino: nat, parent: Addr, iblk: nat, s: nat, b: u32,
                 i: nat, par: Addr, t: nat)
    requires SlotSet(v, v', owner, ino, parent, iblk, s, b)
    requires GoodKey(Key(i, par)) && t < PTRS_PER_BLOCK && KeyPtr(v, Key(i, par)) != 0
    ensures var p := KeyPtr(v, Key(i, par));
            Ptr(BlockAt(v', p), t) == if i == ino && par == parent && t == s then b else Ptr(BlockAt(v, p), t)
  {
  }

  lemma DerefAfterSetSlot(v: Vol, v': Vol, owner: Owner, ino: nat, parent: Addr, iblk: nat, s: nat, b: u32, k: Key)
    requires SlotSet(v, v', owner, ino, parent, iblk, s, b) && GoodKey(k)
    ensures KeyPtr(v', k) == if k == Key(ino, Child(parent, s)) then b else KeyPtr(v, k)
    decreases k.addr.Leaf?
  {
    assert KeyPtr(v, Key(ino, parent)) == iblk != 0;
    match k.addr
    case Direct(_) =>
    case Indirect =>
    case Double =>
    case Single(t) =>
      if KeyPtr(v, Key(k.ino, Indirect)) != 0 { SlotRead(v, v', owner, ino, parent, iblk, s, b, k.ino, Indirect, t); }
    case Mid(t) =>
      if KeyPtr(v, Key(k.ino, Double)) != 0 { SlotRead(v, v', owner, ino, parent, iblk, s, b, k.ino, Double, t); }
    case Leaf(i, t) =>
      DerefAfterSetSlot(v, v', owner, ino, parent, iblk, s, b, Key(k.ino, Mid(i)));
      if KeyPtr(v, Key(k.ino, Mid(i))) != 0 {
        SlotRead(v, v', owner, ino, parent, iblk, s, b, k.ino, Mid(i), t);
      } else if Key(k.ino, Mid(i)) == Key(ino, Child(parent, s)) {
        ZeroPtrs();
        assert b != iblk;
      }
  }

  // --- growing a file ---------------------------------------------------------------

  /** What allocation for inode `ino` may do: owned blocks keep their owner, file data and
      everything of other inodes keeps its contents, and new data blocks start out zero. */
  ghost predicate Grows(v: Vol, o: Owner, v': Vol, o': Owner, ino: nat) {
    && v'.l == v.l && |v'.inodes| == |v.inodes| && |v'.data| == |v.data|
    && (forall i :: 0 <= i < |v.inodes| && i != ino ==> v'.inodes[i] == v.inodes[i])
    && (forall b :: b in o ==> b in o' && o'[b] == o[b])
    && (forall b :: b in o && b < |v.data| && (o[b].ino != ino || !IsIndex(o[b].addr)) ==> v'.data[b] == v.data[b])
    && (forall b :: b in o' && b !in o ==> o'[b].ino == ino)
    && (forall b :: b in o' && b !in o && b < |v.data| && !IsIndex(o'[b].addr) ==> v'.data[b] == ZeroBlock())
  }

  lemma GrowsTransitive(v0: Vol, o0: Owner, v1: Vol, o1: Owner, v2: Vol, o2: Owner, ino: nat)
    requires Grows(v0, o0, v1, o1, ino) && Grows(v1, o1, v2, o2, ino)
    ensures Grows(v0, o0, v2, o2, ino)
  {
  }

  lemma GrowsLost(v: Vol, o: Owner, v': Vol, o': Owner, ino: nat)
    requires Grows(v, o, v', o', ino) && ino < INODE_COUNT
    ensures SameLost(o, o')
  {
  }

  lemma GrowsSetSlot(v: Vol, owner: Owner, ino: nat, parent: Addr, iblk: nat, s: nat, b: u32, blk: Block)
    requires Owns(v, owner) && GoodKey(Key(ino, parent)) && IsIndex(parent) && s < PTRS_PER_BLOCK
    requires iblk in owner && owner[iblk] == Key(ino, parent)
    requires v.l.dataStart <= b < v.l.total && !v.used[b]
    ensures var a := Allocated(v, b);
            Grows(v, owner, Vol(a.l, a.used, a.inodes, a.data[iblk := blk]),
                  owner[b := Key(ino, Child(parent, s))], ino)
  {
  }

  lemma GrowsSetPtr(v: Vol, owner: Owner, ino: nat, a: Addr, b: u32, n: Inode)
    requires Owns(v, owner) && GoodKey(Key(ino, a))
    requires v.l.dataStart <= b < v.l.total && !v.used[b]
    ensures Grows(v, owner, With(Allocated(v, b), ino, n), owner[b := Key(ino, a)], ino)
  {
  }

  /** `indirect_slot`: slot `slot` of the index block `iblk` that `parent` of inode `ino` owns. */
  method IndirectSlot(st: Store, iblk: u32, slot: nat, alloc: bool,
                      ghost ino: nat, ghost node: Inode, ghost parent: Addr, ghost owner: Owner)
    returns (r: Option<u32>, ghost owner': Owner)
    requires st.Valid() && ino < INODE_COUNT && Owns(With(st.vol, ino, node), owner)
    requires GoodKey(Key(ino, parent)) && IsIndex(parent) && slot < PTRS_PER_BLOCK
    requires iblk in owner && owner[iblk] == Key(ino, parent)
    modifies st`disk, st`vol, st.cache
    ensures st.Valid() && Owns(With(st.vol, ino, node), owner')
    ensures st.vol.inodes == old(st.vol).inodes
    ensures Grows(With(old(st.vol), ino, node), owner, With(st.vol, ino, node), owner', ino)
    ensures r.Some? ==> r.value != 0 && r.value == Deref(st.vol, node, Child(parent, slot))
    ensures r.None? ==> st.vol == old(st.vol) && owner' == owner && Deref(st.vol, node, Child(parent, slot)) == 0
    ensures r.None? && alloc ==> Full(st.vol)
    ensures !alloc ==> st.vol == old(st.vol) && owner' == owner
    ensures forall b :: b in owner' && b !in owner && !IsIndex(owner'[b].addr) ==> r == Some(b)
  {
    owner' := owner;
    ghost var w := With(st.vol, ino, node);
    DerefWith(st.vol, ino, node, owner, iblk);
    DerefChild(st.vol, node, parent, slot);
    var blk := st.ReadData(iblk);
    var cur := Ptr(blk, slot);
    r := if cur != 0 then Some(cur) else None;
    if cur == 0 && alloc {
      r := st.AllocBlock();
      if r.Some? {
        var b := r.value;
        var blk' := Wr32(blk, slot * 4, b);
        OwnsSetSlot(w, owner, ino, parent, iblk, slot, b, blk');
        GrowsSetSlot(w, owner, ino, parent, iblk, slot, b, blk');
        st.WriteData(iblk, blk');
        owner' := owner[b := Key(ino, Child(parent, slot))];
        assert With(st.vol, ino, node) == Vol(w.l, w.used[b := true], w.inodes, w.data[b := ZeroBlock()][iblk := blk']);
        DerefWith(st.vol, ino, node, owner', b);
      }
    }
  }

  /** An owned block is what its owner's pointer dereferences to in the in-memory inode. */
  lemma DerefWith(v: Vol, ino: nat, node: Inode, owner: Owner, b: nat)
    requires ino < |v.inodes| && Owns(With(v, ino, node), owner) && b in owner && owner[b].ino == ino
    ensures Deref(v, node, owner[b].addr) == b
  {
  }

  /** A non-empty pointer of the in-memory inode names a block owned through that pointer. */
  lemma PointerOwned(v: Vol, ino: nat, node: Inode, owner: Owner, a: Addr)
    requires ino < INODE_COUNT == |v.inodes| && Owns(With(v, ino, node), owner) && GoodAddr(a) && Deref(v, node, a) != 0
    ensures v.l.dataStart <= Deref(v, node, a) < v.l.total
    ensures Deref(v, node, a) in owner && owner[Deref(v, node, a)] == Key(ino, a)
  {
    assert KeyPtr(With(v, ino, node), Key(ino, a)) == Deref(v, node, a);
  }

  /** Dereferencing a child pointer reads the slot of the block its parent names. */
  lemma DerefChild(v: Vol, n: Inode, parent: Addr, s: nat)
    requires GoodAddr(parent) && IsIndex(parent) && s < PTRS_PER_BLOCK
    ensures Deref(v, n, Child(parent, s)) ==
            if Deref(v, n, parent) == 0 then 0 else Ptr(BlockAt(v, Deref(v, n, parent)), s)
  {
  }

  /** Allocates a block for pointer `a` of the in-memory inode if it is empty. */
  method EnsurePtr(st: Store, node: Inode, a: Addr, ghost ino: nat, ghost owner: Owner)
    returns (ok: bool, node': Inode, ghost owner': Owner)
    requires st.Valid() && ino < INODE_COUNT && Owns(With(st.vol, ino, node), owner)
    requires GoodAddr(a) && (a.Direct? || a.Indirect? || a.Double?)
    modifies st`disk, st`vol, st.cache
    ensures st.Valid() && Owns(With(st.vol, ino, node'), owner')
    ensures st.vol.inodes == old(st.vol).inodes
    ensures Grows(With(old(st.vol), ino, node), owner, With(st.vol, ino, node'), owner', ino)
    ensures node'.kind == node.kind && node'.nlink == node.nlink && node'.size == node.size
    ensures ok ==> Deref(st.vol, node', a) != 0 && node' == SetPtr(node, a, Deref(st.vol, node', a))
    ensures forall b :: b in owner' && b !in owner ==> owner'[b].addr == a && b == Deref(st.vol, node', a)
    ensures !ok ==> Full(st.vol) && node' == node && owner' == owner && st.vol == old(st.vol)
    ensures Deref(old(st.vol), node, a) != 0 ==> ok && node' == node && owner' == owner && st.vol == old(st.vol)
    ensures ok <==> Deref(old(st.vol), node, a) != 0 || !Full(old(st.vol))
  {
    owner' := owner;
    node' := node;
    ghost var w := With(st.vol, ino, node);
    var cur := match a case Direct(i) => node.direct[i] case Indirect => node.indirect case _ => node.double;
    assert cur == KeyPtr(w, Key(ino, a)) == Deref(st.vol, node, a);
    if cur != 0 {
      assert node == SetPtr(node, a, cur);
      return true, node, owner;
    }
    var got := st.AllocBlock();
    if got.None? {
      return false, node, owner;
    }
    var b := got.value;
    OwnsSetPtr(w, owner, ino, a, b);
    node' := SetPtr(node, a, b);
    GrowsSetPtr(w, owner, ino, a, b, node');
    owner' := owner[b := Key(ino, a)];
    assert With(st.vol, ino, node') == With(Allocated(w, b), ino, SetPtr(node, a, b));
    ok := true;
  }

  /** `block_for`: the block that maps file block `bi`, allocating data and index blocks on demand. */
  method BlockFor(st: Store, node: Inode, bi: nat, alloc: bool, ghost ino: nat, ghost owner: Owner)
    returns (r: Option<u32>, node': Inode, ghost owner': Owner)
    requires st.Valid() && ino < INODE_COUNT && Owns(With(st.vol, ino, node), owner)
    modifies st`disk, st`vol, st.cache
    ensures st.Valid() && Owns(With(st.vol, ino, node'), owner')
    ensures st.vol.inodes == old(st.vol).inodes
    ensures Grows(With(old(st.vol), ino, node), owner, With(st.vol, ino, node'), owner', ino)
    ensures node'.kind == node.kind && node'.nlink == node.nlink && node'.size == node.size
    ensures r.Some? ==> bi < MAX_BLOCKS && r.value != 0 && r.value == Deref(st.vol, node', DataAddr(bi))
    ensures !alloc ==> st.vol == old(st.vol) && node' == node && owner' == owner
    ensures !alloc && r.None? ==> bi >= MAX_BLOCKS || Deref(st.vol, node, DataAddr(bi)) == 0
    ensures alloc && r.None? ==> bi >= MAX_BLOCKS || Full(st.vol)
    ensures bi < NDIRECT && r.None? ==> st.vol == old(st.vol) && node' == node && owner' == owner
    ensures bi < NDIRECT && r.Some? ==> node' == SetPtr(node, Direct(bi), r.value)
    ensures bi < NDIRECT && alloc ==> (r.Some? <==> node.direct[bi] != 0 || !Full(old(st.vol)))
    ensures forall b :: b in owner' && b !in owner && !IsIndex(owner'[b].addr) ==> r == Some(b)
  {
    if bi < NDIRECT {
      assert DataAddr(bi) == Direct(bi);
      r, node', owner' := ThroughDirect(st, node, bi, alloc, ino, owner);
    } else if bi - NDIRECT < PTRS_PER_BLOCK {
      assert DataAddr(bi) == Child(Indirect, bi - NDIRECT);
      r, node', owner' := ThroughIndex(st, node, Indirect, bi - NDIRECT, alloc, ino, owner);
    } else if bi - NDIRECT - PTRS_PER_BLOCK >= PTRS_PER_BLOCK * PTRS_PER_BLOCK {
      r, node', owner' := None, node, owner;
    } else {
      var b2 := bi - NDIRECT - PTRS_PER_BLOCK;
      assert DataAddr(bi) == Leaf(b2 / PTRS_PER_BLOCK, b2 % PTRS_PER_BLOCK);
      r, node', owner' := ThroughDouble(st, node, b2 / PTRS_PER_BLOCK, b2 % PTRS_PER_BLOCK, alloc, ino, owner);
    }
  }

  /** The direct tier. */
  method ThroughDirect(st: Store, node: Inode, i: nat, alloc: bool, ghost ino: nat, ghost owner: Owner)
    returns (r: Option<u32>, node': Inode, ghost owner': Owner)
    requires st.Valid() && ino < INODE_COUNT && Owns(With(st.vol, ino, node), owner) && i < NDIRECT
    modifies st`disk, st`vol, st.cache
    ensures st.Valid() && Owns(With(st.vol, ino, node'), owner')
    ensures st.vol.inodes == old(st.vol).inodes
    ensures Grows(With(old(st.vol), ino, node), owner, With(st.vol, ino, node'), owner', ino)
    ensures node'.kind == node.kind && node'.nlink == node.nlink && node'.size == node.size
    ensures r.Some? ==> r.value != 0 && r.value == Deref(st.vol, node', Direct(i))
    ensures !alloc ==> st.vol == old(st.vol) && node' == node && owner' == owner
    ensures !alloc && r.None? ==> Deref(st.vol, node, Direct(i)) == 0
    ensures r.None? ==> st.vol == old(st.vol) && node' == node && owner' == owner
    ensures r.Some? ==> node' == SetPtr(node, Direct(i), r.value)
    ensures alloc ==> (r.Some? <==> node.direct[i] != 0 || !Full(old(st.vol)))
    ensures forall b :: b in owner' && b !in owner && !IsIndex(owner'[b].addr) ==> r == Some(b)
  {
    node', owner' := node, owner;
    var ok := node.direct[i] != 0;
    assert node == SetPtr(node, Direct(i), node.direct[i]);
    if !ok && alloc {
      ok, node', owner' := EnsurePtr(st, node, Direct(i), ino, owner);
    }
    r := if ok then Some(node'.direct[i]) else None;
  }

  /** The double-indirect tier: first level selects an index block, second level the data block. */
  method ThroughDouble(st: Store, node: Inode, i: nat, j: nat, alloc: bool, ghost ino: nat, ghost owner: Owner)
    returns (r: Option<u32>, node': Inode, ghost owner': Owner)
    requires st.Valid() && ino < INODE_COUNT && Owns(With(st.vol, ino, node), owner)
    requires i < PTRS_PER_BLOCK && j < PTRS_PER_BLOCK
    modifies st`disk, st`vol, st.cache
    ensures st.Valid() && Owns(With(st.vol, ino, node'), owner')
    ensures st.vol.inodes == old(st.vol).inodes
    ensures Grows(With(old(st.vol), ino, node), owner, With(st.vol, ino, node'), owner', ino)
    ensures node'.kind == node.kind && node'.nlink == node.nlink && node'.size == node.size
    ensures r.Some? ==> r.value != 0 && r.value == Deref(st.vol, node', Leaf(i, j))
    ensures !alloc ==> st.vol == old(st.vol) && node' == node && owner' == owner
    ensures !alloc && r.None? ==> Deref(st.vol, node, Leaf(i, j)) == 0
    ensures forall b :: b in owner' && b !in owner && !IsIndex(owner'[b].addr) ==> r == Some(b)
    ensures alloc && r.None? ==> Full(st.vol)
  {
    r, node', owner' := ThroughIndex(st, node, Double, i, alloc, ino, owner);
    if r.Some? {
      ghost var w1, o1 := With(st.vol, ino, node'), owner';
      PointerOwned(st.vol, ino, node', o1, Mid(i));
      r, owner' := IndirectSlot(st, r.value, j, alloc, ino, node', Mid(i), o1);
      GrowsTransitive(With(old(st.vol), ino, node), owner, w1, o1, With(st.vol, ino, node'), owner', ino);
    }
  }

  /** The step common to both indirect tiers: the index block behind `parent`, then its slot. */
  method ThroughIndex(st: Store, node: Inode, parent: Addr, slot: nat, alloc: bool, ghost ino: nat, ghost owner: Owner)
    returns (r: Option<u32>, node': Inode, ghost owner': Owner)
    requires st.Valid() && ino < INODE_COUNT && Owns(With(st.vol, ino, node), owner)
    requires (parent == Indirect || parent == Double) && slot < PTRS_PER_BLOCK
    modifies st`disk, st`vol, st.cache
    ensures st.Valid() && Owns(With(st.vol, ino, node'), owner')
    ensures st.vol.inodes == old(st.vol).inodes
    ensures Grows(With(old(st.vol), ino, node), owner, With(st.vol, ino, node'), owner', ino)
    ensures node'.kind == node.kind && node'.nlink == node.nlink && node'.size == node.size
    ensures r.Some? ==> r.value != 0 && r.value == Deref(st.vol, node', Child(parent, slot))
    ensures !alloc ==> st.vol == old(st.vol) && node' == node && owner' == owner
    ensures !alloc && r.None? ==> Deref(st.vol, node, Child(parent, slot)) == 0
    ensures forall b :: b in owner' && b !in owner && !IsIndex(owner'[b].addr) ==> r == Some(b)
    ensures alloc && r.None? ==> Full(st.vol)
  {
    node', owner' := node, owner;
    var ok := (if parent == Indirect then node.indirect else node.double) != 0;
    if !ok && alloc {
      ok, node', owner' := EnsurePtr(st, node, parent, ino, owner);
    }
    r := None;
    if ok {
      ghost var w1, o1 := With(st.vol, ino, node'), owner';
      var iblk := if parent == Indirect then node'.indirect else node'.double;
      PointerOwned(st.vol, ino, node', o1, parent);
      r, owner' := IndirectSlot(st, iblk, slot, alloc, ino, node', parent, o1);
      GrowsTransitive(With(old(st.vol), ino, node), owner, w1, o1, With(st.vol, ino, node'), owner', ino);
    }
  }
}
