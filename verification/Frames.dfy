/** The physical frame allocator (kernel/src/frames.rs): a bitmap with one bit per frame, set while
    the frame is used, and a running count of the free ones. */
module Frames {
  import opened Wrappers
  import opened DiskFormat

  const FRAME_SIZE := 4096

  // --- counting ---------------------------------------------------------------------------------

  function CountFree(used: seq<bool>): (r: nat)
    ensures r <= |used|
  {
    if used == [] then 0 else (if used[|used| - 1] then 0 else 1) + CountFree(used[..|used| - 1])
  }

  lemma {:induction false} CountSet(used: seq<bool>, i: nat, on: bool)
    requires i < |used|
    ensures CountFree(used[i := on]) == CountFree(used) + (if used[i] then 1 else 0) - (if on then 1 else 0)
  {
    var n := |used| - 1;
    if i == n {
      assert used[i := on][..n] == used[..n];
    } else {
      assert used[i := on][..n] == used[..n][i := on];
      CountSet(used[..n], i, on);
    }
  }

  lemma {:induction false} CountAllUsed(used: seq<bool>)
    requires forall i :: 0 <= i < |used| ==> used[i]
    ensures CountFree(used) == 0
  {
    if used != [] {
      CountAllUsed(used[..|used| - 1]);
    }
  }

  /** Frames `start .. start + n` are free. */
  ghost predicate FreeRun(used: seq<bool>, start: nat, n: nat) {
    start + n <= |used| && forall k :: start <= k < start + n ==> !used[k]
  }

  /** The same frames after marking the run used. */
  function MarkRun(used: seq<bool>, start: nat, n: nat): (r: seq<bool>)
    requires start + n <= |used|
    ensures |r| == |used| && forall k :: 0 <= k < |used| ==> r[k] == (used[k] || start <= k < start + n)
  {
    used[..start] + seq(n, _ => true) + used[start + n..]
  }

  lemma MarkRunStep(used: seq<bool>, start: nat, k: nat)
    requires start + k < |used| && !used[start + k]
    ensures !MarkRun(used, start, k)[start + k]
    ensures MarkRun(used, start, k + 1) == MarkRun(used, start, k)[start + k := true]
  {
  }

  // --- the allocator --------------------------------------------------------------------------------

  class Allocator {
    const bitmap: array<u8>
    const frames: nat
    var freeCount: nat
    ghost var used: seq<bool>
    ghost var live: seq<Alloc>

    predicate UsedBit(f: nat)
      requires frames <= 8 * bitmap.Length && f < frames
      reads bitmap
    {
      Bit(bitmap[f / 8], f % 8)
    }

    /** The bits are `used`, and the count is the number of clear bits. */
    ghost predicate BitsOk()
      reads this, bitmap
    {
      && 0 < frames == 8 * bitmap.Length && |used| == frames
      && (forall f :: 0 <= f < frames ==> used[f] == UsedBit(f))
      && freeCount == CountFree(used)
    }

    /** Also, the live allocations are used, disjoint and clear of frame 0. */
    ghost predicate Valid()
      reads this, bitmap
    {
      BitsOk() && LiveOk(used, live)
    }

    /** Everything used, as the static bitmap starts. */
    constructor (bytes: nat)
      requires bytes > 0
      ensures Valid() && frames == 8 * bytes && freeCount == 0 && live == []
              && (forall f :: 0 <= f < frames ==> used[f]) && fresh(bitmap)
    {
      bitmap := new u8[bytes](_ => 255);
      frames := 8 * bytes;
      freeCount := 0;
      used := seq(8 * bytes, _ => true);
      live := [];
      new;
      AllOnes();
      CountAllUsed(used);
    }

    /** `mark_used` and `mark_free` */
    method Mark(f: nat, on: bool)
      requires BitsOk() && f < frames && used[f] != on
      modifies this`freeCount, this`used, bitmap
      ensures BitsOk() && used == old(used)[f := on]
      ensures freeCount == if on then old(freeCount) - 1 else old(freeCount) + 1
    {
      CountSet(used, f, on);
      bitmap[f / 8] := PutByteBit(bitmap[f / 8], f % 8, on);
      used := used[f := on];
      freeCount := if on then freeCount - 1 else freeCount + 1;
    }

    /** One usable region of `init_from_regions`: the frames that end inside it become free. */
    method AddRegion(base: nat, length: nat)
      requires BitsOk()
      modifies this`freeCount, this`used, bitmap
      ensures BitsOk()
      ensures forall f :: 0 <= f < frames ==> used[f] == (old(used)[f] && !EndsIn((base, length), f))
    {
      var start, end := base / FRAME_SIZE, (base + length) / FRAME_SIZE;
      var f := start;
      while f < end
        invariant BitsOk() && f >= start
        invariant forall k :: 0 <= k < frames ==> used[k] == (old(used)[k] && !(start <= k < f && k < end))
      {
        if f < frames && UsedBit(f) {
          Mark(f, false);
        }
        f := f + 1;
      }
      forall k | 0 <= k < frames ensures start <= k < end <==> EndsIn((base, length), k) {
        RoundedRange((base, length), k);
      }
    }

    /** `init_from_regions`: a frame other than frame 0 is free exactly when its last byte lies in a usable
        region. If every region starts on a frame boundary, the free frames are exactly those that lie
        wholly inside a region. */
    method InitFromRegions(usable: seq<(nat, nat)>)
      requires Valid() && live == [] && forall f :: 0 <= f < frames ==> used[f]
      modifies this`freeCount, this`used, bitmap
      ensures Valid() && used[0]
      ensures forall f :: 1 <= f < frames ==> (!used[f] <==> Covered(usable, |usable|, f))
      ensures (forall i :: 0 <= i < |usable| ==> usable[i].0 % FRAME_SIZE == 0) ==>
                forall f :: 1 <= f < frames ==> (!used[f] <==> exists i :: 0 <= i < |usable| && InRegion(usable[i], f))
    {
      for i := 0 to |usable|
        invariant BitsOk()
        invariant forall f :: 0 <= f < frames ==> (!used[f] <==> Covered(usable, i, f))
      {
        AddRegion(usable[i].0, usable[i].1);
        CoveredNext(usable, i, frames);
      }
      if !UsedBit(0) {
        Mark(0, true);
      }
      if forall i :: 0 <= i < |usable| ==> usable[i].0 % FRAME_SIZE == 0 {
        AlignedRegions(usable, frames);
      }
    }

    /** `alloc_frame`: the lowest free frame, or none exactly when none is left. */
    method AllocFrame() returns (r: Option<nat>)
      requires Valid() && used[0]
      modifies this`freeCount, this`used, this`live, bitmap
      ensures Valid() && used[0]
      ensures r.None? <==> old(freeCount) == 0
      ensures r.None? ==> used == old(used) && live == old(live)
      ensures r.Some? ==> r.value % FRAME_SIZE == 0 && 0 < r.value / FRAME_SIZE < frames
      ensures r.Some? ==> !old(used)[r.value / FRAME_SIZE] && used == old(used)[r.value / FRAME_SIZE := true]
      ensures r.Some? ==> live == old(live) + [Alloc(r.value / FRAME_SIZE, 1)]
      ensures r.Some? ==> forall k :: 0 <= k < r.value / FRAME_SIZE ==> old(used)[k]
    {
      for f := 1 to frames
        invariant Valid() && used == old(used) && live == old(live) && freeCount == old(freeCount)
                  && forall k :: 0 <= k < f ==> used[k]
      {
        if !UsedBit(f) {
          TakeFrame(f);
          assert f * FRAME_SIZE / FRAME_SIZE == f;
          return Some(f * FRAME_SIZE);
        }
      }
      CountAllUsed(used);
      return None;
    }

    method TakeFrame(f: nat)
      requires Valid() && 0 < f < frames && !used[f]
      modifies this`freeCount, this`used, this`live, bitmap
      ensures Valid() && used == old(used)[f := true] && live == old(live) + [Alloc(f, 1)] && old(freeCount) > 0
    {
      NewAlloc(used, live, Alloc(f, 1));
      assert MarkRun(used, f, 1) == used[f := true];
      Mark(f, true);
      live := live + [Alloc(f, 1)];
    }

    /** `alloc_contiguous`: the lowest run of `n` free frames, or none exactly when there is none, although the
        search skips ahead behind every used frame it meets. */
    method AllocContiguous(n: nat) returns (r: Option<nat>)
      requires Valid() && used[0]
      modifies this`freeCount, this`used, this`live, bitmap
      ensures Valid() && used[0]
      ensures r.None? <==> n == 0 || forall s :: 0 <= s ==> !FreeRun(old(used), s, n)
      ensures r.None? ==> used == old(used) && live == old(live)
      ensures r.Some? ==> r.value % FRAME_SIZE == 0 && 0 < r.value / FRAME_SIZE
      ensures r.Some? ==> FreeRun(old(used), r.value / FRAME_SIZE, n)
      ensures r.Some? ==> forall s :: 0 <= s < r.value / FRAME_SIZE ==> !FreeRun(old(used), s, n)
      ensures r.Some? ==> used == MarkRun(old(used), r.value / FRAME_SIZE, n)
      ensures r.Some? ==> live == old(live) + [Alloc(r.value / FRAME_SIZE, n)]
    {
      r := None;
      if n != 0 {
        var run := FindRun(n);
        if run.Some? {
          var start := run.value;
          assert FreeRun(used, start, n);
          MarkFrames(start, n);
          assert start * FRAME_SIZE / FRAME_SIZE == start;
          r := Some(start * FRAME_SIZE);
        }
      }
    }

    /** The search: the lowest run of `n` free frames above frame 0. */
    method FindRun(n: nat) returns (r: Option<nat>)
      requires Valid() && used[0] && n > 0
      ensures r.Some? ==> 0 < r.value && FreeRun(used, r.value, n)
      ensures r.Some? ==> forall s :: 0 <= s < r.value ==> !FreeRun(used, s, n)
      ensures r.None? ==> forall s :: 0 <= s ==> !FreeRun(used, s, n)
    {
      var start := 1;
      while start + n <= frames
        invariant 1 <= start && forall s :: 0 <= s < start ==> !FreeRun(used, s, n)
        decreases frames - start
      {
        var k := FreePrefix(start, n);
        if k == n {
          return Some(start);
        }
        SkipAhead(used, start, k, n);
        start := start + k + 1;
      }
      return None;
    }

    /** The inner loop: how many frames from `start` on are free, up to `n`. */
    method FreePrefix(start: nat, n: nat) returns (k: nat)
      requires Valid() && start + n <= frames
      ensures k <= n && (forall j :: start <= j < start + k ==> !used[j]) && (k < n ==> used[start + k])
    {
      k := 0;
      while k < n && !UsedBit(start + k)
        invariant 0 <= k <= n && forall j :: start <= j < start + k ==> !used[j]
      {
        k := k + 1;
      }
    }

    method MarkFrames(start: nat, n: nat)
      requires Valid() && FreeRun(used, start, n) && 0 < start
      modifies this`freeCount, this`used, this`live, bitmap
      ensures Valid() && used == MarkRun(old(used), start, n) && live == old(live) + [Alloc(start, n)]
    {
      ghost var used0, live0 := used, live;
      for k := 0 to n
        invariant BitsOk() && used == MarkRun(used0, start, k)
      {
        MarkRunStep(used0, start, k);
        Mark(start + k, true);
      }
      NewAlloc(used0, live0, Alloc(start, n));
      live := live0 + [Alloc(start, n)];
    }

    /** `free_frame` of a frame of live allocation `i`: what is left of it, before and behind the frame,
        stays allocated. */
    method FreeFrame(phys: nat, ghost i: nat)
      requires Valid() && i < |live| && Inside(live[i], phys / FRAME_SIZE)
      modifies this`freeCount, this`used, this`live, bitmap
      ensures Valid() && used == old(used)[phys / FRAME_SIZE := false] && (old(used)[0] ==> used[0])
      ensures live == Split(old(live), i, phys / FRAME_SIZE)
      ensures freeCount == old(freeCount) + 1
    {
      var f := phys / FRAME_SIZE;
      FreedAlloc(used, live, i, f);
      if f < frames && UsedBit(f) {
        Mark(f, false);
        live := Split(live, i, f);
      }
    }
  }

  /** Frame `f` lies wholly inside the region of `r.1` bytes from `r.0` on. */
  predicate InRegion(r: (nat, nat), f: nat) { r.0 <= f * FRAME_SIZE && (f + 1) * FRAME_SIZE <= r.0 + r.1 }

  /** The last byte of frame `f` lies in the region. */
  predicate EndsIn(r: (nat, nat), f: nat) { r.0 <= (f + 1) * FRAME_SIZE - 1 < r.0 + r.1 }

  /** The rounded bounds of the loop select the frames that end in the region. */
  lemma RoundedRange(r: (nat, nat), f: nat)
    ensures r.0 / FRAME_SIZE <= f < (r.0 + r.1) / FRAME_SIZE <==> EndsIn(r, f)
  {
  }

  /** Some region among the first `n` contains the end of frame `f`. */
  ghost predicate Covered(usable: seq<(nat, nat)>, n: nat, f: nat)
    requires n <= |usable|
  {
    exists i :: 0 <= i < n && EndsIn(usable[i], f)
  }

  lemma CoveredNext(usable: seq<(nat, nat)>, i: nat, frames: nat)
    requires i < |usable|
    ensures forall f :: 0 <= f < frames ==>
              (Covered(usable, i + 1, f) <==> Covered(usable, i, f) || EndsIn(usable[i], f))
  {
  }

  /** A region gives only frames that lie wholly inside it if and only if it starts on a frame boundary
      or no frame ends in it. (The loop rounds the start of a region down.) */
  lemma WholeFramesIff(r: (nat, nat))
    ensures (forall f: nat :: EndsIn(r, f) ==> InRegion(r, f)) <==>
            r.0 % FRAME_SIZE == 0 || r.0 / FRAME_SIZE == (r.0 + r.1) / FRAME_SIZE
  {
    var first := r.0 / FRAME_SIZE;
    RoundedRange(r, first);
    if r.0 % FRAME_SIZE != 0 && first < (r.0 + r.1) / FRAME_SIZE {
      assert EndsIn(r, first) && !InRegion(r, first);
    } else {
      forall f: nat | EndsIn(r, f) ensures InRegion(r, f) {
        RoundedRange(r, f);
      }
    }
  }

  /** 8192 bytes from 4196 on: frame 1, whose first 100 bytes lie before the region, is freed with them. */
  lemma UnalignedExample()
    ensures EndsIn((4196, 8192), 1) && !InRegion((4196, 8192), 1)
  {
  }

  lemma AlignedRegions(usable: seq<(nat, nat)>, frames: nat)
    requires forall i :: 0 <= i < |usable| ==> usable[i].0 % FRAME_SIZE == 0
    ensures forall f :: 0 <= f < frames ==>
              (Covered(usable, |usable|, f) <==> exists i :: 0 <= i < |usable| && InRegion(usable[i], f))
  {
    forall f, i | 0 <= f < frames && 0 <= i < |usable| ensures EndsIn(usable[i], f) <==> InRegion(usable[i], f) {
      WholeFramesIff(usable[i]);
    }
  }

  /** No run of `n` starts between a start and the used frame found behind it. */
  lemma SkipAhead(used: seq<bool>, start: nat, k: nat, n: nat)
    requires k < n && start + k < |used| && used[start + k]
    ensures forall s :: start <= s <= start + k ==> !FreeRun(used, s, n)
  {
  }

  lemma AllOnes()
    ensures forall k: nat :: k < 8 ==> Bit(255, k)
  {
    assert Bit(255, 0) && Bit(127, 0) && Bit(63, 0) && Bit(31, 0) && Bit(15, 0) && Bit(7, 0) && Bit(3, 0) && Bit(1, 0);
    assert Bit(3, 1) && Bit(7, 1) && Bit(7, 2) && Bit(15, 2) && Bit(15, 3) && Bit(31, 3) && Bit(31, 4);
    assert Bit(63, 4) && Bit(63, 5) && Bit(127, 5) && Bit(127, 6) && Bit(255, 6) && Bit(255, 7);
    assert Bit(127, 1) && Bit(255, 1) && Bit(255, 2);
    assert Bit(63, 1) && Bit(127, 2) && Bit(255, 3);
    assert Bit(31, 1) && Bit(63, 2) && Bit(127, 3) && Bit(255, 4);
    assert Bit(15, 1) && Bit(31, 2) && Bit(63, 3) && Bit(127, 4) && Bit(255, 5);
  }

  // --- whole runs --------------------------------------------------------------------------------------

  /** A live allocation: `n` frames from `start` on. */
  datatype Alloc = Alloc(start: nat, n: nat)

  predicate Inside(a: Alloc, f: int) { a.start <= f < a.start + a.n }

  /** Live allocations are used, disjoint, and never contain frame 0. */
  ghost predicate LiveOk(used: seq<bool>, live: seq<Alloc>) {
    && (forall i :: 0 <= i < |live| ==> 0 < live[i].start && live[i].start + live[i].n <= |used|)
    && (forall i, f :: 0 <= i < |live| && 0 <= f < |used| && Inside(live[i], f) ==> used[f])
    && (forall i, j, f :: 0 <= i < j < |live| && Inside(live[i], f) ==> !Inside(live[j], f))
  }

  lemma NewAlloc(used: seq<bool>, live: seq<Alloc>, a: Alloc)
    requires LiveOk(used, live) && FreeRun(used, a.start, a.n) && 0 < a.start
    ensures LiveOk(MarkRun(used, a.start, a.n), live + [a])
  {
    var live' := live + [a];
    forall i, j, f | 0 <= i < j < |live'| && Inside(live'[i], f) ensures !Inside(live'[j], f) {
      if j == |live| {
        assert live'[i] == live[i] && 0 <= f < |used| && used[f];
      }
    }
  }

  /** Allocation `i` without frame `f`: the part before it and the part behind it, either of which may be
      empty. */
  function Split(live: seq<Alloc>, i: nat, f: nat): (r: seq<Alloc>)
    requires i < |live| && Inside(live[i], f)
    ensures |r| == |live| + 1
  {
    var a := live[i];
    live[..i] + [Alloc(a.start, f - a.start), Alloc(f + 1, a.start + a.n - f - 1)] + live[i + 1..]
  }

  /** What is left covers every frame of the live allocations but `f`, and nothing more. */
  lemma SplitCovers(used: seq<bool>, live: seq<Alloc>, i: nat, f: nat, g: nat)
    requires LiveOk(used, live) && i < |live| && Inside(live[i], f)
    ensures (exists j :: 0 <= j < |live| + 1 && Inside(Split(live, i, f)[j], g)) <==>
            g != f && exists j :: 0 <= j < |live| && Inside(live[j], g)
  {
    var r := Split(live, i, f);
    forall j | 0 <= j < |live| + 1 && Inside(r[j], g)
      ensures g != f && exists k :: 0 <= k < |live| && Inside(live[k], g)
    {
      var k := if j <= i then j else j - 1;
      assert Inside(live[k], g);
    }
    forall j | 0 <= j < |live| && Inside(live[j], g) && g != f ensures exists k :: 0 <= k < |r| && Inside(r[k], g) {
      var k := if j < i || (j == i && g < f) then j else j + 1;
      assert Inside(r[k], g);
    }
  }

  lemma FreedAlloc(used: seq<bool>, live: seq<Alloc>, i: nat, f: nat)
    requires LiveOk(used, live) && i < |live| && Inside(live[i], f)
    ensures f < |used| && used[f] && 0 < f && LiveOk(used[f := false], Split(live, i, f))
  {
  }
}
