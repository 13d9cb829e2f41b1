/** virtio-blk with several requests in flight (kernel/src/virtio_blk.rs; split virtqueues, section
    2.6 of VIRTIO 1.1).

    The driver writes descriptor triples and the available ring, the device completes requests in
    any order through the used ring, and all ring indices are 16-bit and wrap. Requests are
    numbered by submission in a history that only the statements use. Submitting a request and
    clearing its completion flag is one interrupts-off step, as in a system call. */
module Virtio {
  const N_SLOTS := 8
  const WRAP := 0x1_0000

  type Sector = seq<nat>

  // --- wrapping indices -------------------------------------------------------------------

  lemma {:induction false} MulMod(q: nat, t: nat, c: nat)
    requires c < q
    ensures (q * t + c) % q == c
  {
    if t > 0 {
      MulMod(q, t - 1, c);
      assert q * t + c == (q * (t - 1) + c) + q;
      assert (q * (t - 1) + c + q) % q == (q * (t - 1) + c) % q by { AddMod(q * (t - 1) + c, q); }
    }
  }

  lemma AddMod(x: nat, q: nat)
    requires q > 0
    ensures (x + q) % q == x % q
  {
    assert x + q == q * (x / q + 1) + x % q;
    var t := x / q + 1;
    assert (x + q) / q == t by {
      DivUnique(x + q, q, t, x % q);
    }
  }

  lemma DivUnique(x: nat, q: nat, t: nat, r: nat)
    requires q > 0 && r < q && x == q * t + r
    ensures x / q == t && x % q == r
  {
    var t', r' := x / q, x % q;
    assert q * (t - t') == r' - r;
    if t != t' {
      MulApart(q, t - t');
    }
  }

  lemma MulApart(q: int, d: int)
    requires q > 0 && d != 0
    ensures q * d >= q || q * d <= -q
  {
  }

  /** A 16-bit index and the unbounded count it stands for meet the same ring position. */
  lemma WrapKeepsPosition(x: nat, q: nat)
    requires q > 0 && WRAP % q == 0
    ensures x % WRAP % q == x % q
  {
    var m := WRAP / q;
    assert WRAP == q * m;
    var r := x % WRAP;
    var t := m * (x / WRAP) + r / q;
    assert x == WRAP * (x / WRAP) + r;
    assert r == q * (r / q) + r % q;
    assert q * m * (x / WRAP) == q * (m * (x / WRAP));
    assert x == q * t + r % q;
    DivUnique(x, q, t, r % q);
  }

  /** Counts less than a lap apart sit at different positions. */
  lemma PositionsDiffer(a: nat, b: nat, q: nat)
    requires a < b < a + q
    ensures a % q != b % q
  {
    if a % q == b % q {
      assert b - a == q * (b / q - a / q);
      if b / q != a / q {
        MulApart(q, b / q - a / q);
      }
    }
  }

  lemma {:induction false} Pigeons(s: seq<nat>, n: nat)
    requires forall i :: 0 <= i < |s| ==> s[i] < n
    requires forall i, j :: 0 <= i < j < |s| ==> s[i] != s[j]
    ensures |s| <= n
  {
    if s != [] {
      assert s[0] < n;
    }
    if n > 0 && n - 1 in s {
      var i :| 0 <= i < |s| && s[i] == n - 1;
      Pigeons(s[..i] + s[i + 1..], n - 1);
    } else if n > 0 {
      Pigeons(s, n - 1);
    }
  }

  // --- the shared memory ----------------------------------------------------------------------

  datatype Area = Header(slot: nat) | Data(slot: nat) | Status(slot: nat)

  datatype Desc = Desc(area: Area, next: nat)

  datatype Request = Request(slot: nat, sector: nat, write: bool)

  /** Rings, descriptors and per-slot buffers in memory, the driver's cursors and completion flags,
      and the disk behind the device. */
  datatype Dev = Dev(
    qsize: nat, desc: seq<Desc>,
    avail: seq<nat>, availIdx: nat, used: seq<nat>, usedIdx: nat, lastUsed: nat,
    header: seq<Request>, status: seq<nat>, data: seq<Sector>,
    slotDone: seq<bool>, slotStatus: seq<nat>, disk: map<nat, Sector>)

  /** Where the request of a slot is. */
  datatype Phase = Idle | Queued(k: nat) | AtDevice(k: nat) | InUsed(k: nat, at: nat) | Finished(k: nat)

  /** Requests in order of submission, how many the device has fetched, completed requests in order of
      completion with their status, and how many of those the driver has drained. */
  datatype History = History(
    reqs: seq<Request>, fetched: nat, order: seq<nat>, drained: nat, result: map<nat, nat>, phase: seq<Phase>)

  // --- the invariant ----------------------------------------------------------------------------

  ghost predicate ShapeOk(d: Dev, h: History) {
    && d.qsize >= 3 * N_SLOTS && WRAP % d.qsize == 0
    && |d.desc| == |d.avail| == |d.used| == d.qsize
    && |d.header| == |d.status| == |d.data| == |d.slotDone| == |d.slotStatus| == |h.phase| == N_SLOTS
    && h.fetched <= |h.reqs| && h.drained <= |h.order|
    && d.availIdx == |h.reqs| % WRAP && d.usedIdx == |h.order| % WRAP && d.lastUsed == h.drained % WRAP
  }

  /** Requests published but not fetched stand in the available ring, one per slot. */
  ghost predicate AvailOk(d: Dev, h: History)
    requires ShapeOk(d, h)
  {
    forall k :: h.fetched <= k < |h.reqs| ==>
      h.reqs[k].slot < N_SLOTS && h.phase[h.reqs[k].slot] == Queued(k) && d.avail[k % d.qsize] == 3 * h.reqs[k].slot
  }

  /** No request completes twice. Requests completed but not drained stand in the used ring, one per
      slot. */
  ghost predicate UsedOk(d: Dev, h: History)
    requires ShapeOk(d, h)
  {
    && (forall i, j :: 0 <= i < j < |h.order| ==> h.order[i] != h.order[j])
    && (forall j :: 0 <= j < |h.order| ==> h.order[j] in h.result)
    && (forall k :: k in h.result ==> k < |h.reqs|)
    && forall j :: h.drained <= j < |h.order| ==>
      && h.order[j] < |h.reqs| && h.reqs[h.order[j]].slot < N_SLOTS
      && h.phase[h.reqs[h.order[j]].slot] == InUsed(h.order[j], j)
      && d.used[j % d.qsize] == 3 * h.reqs[h.order[j]].slot
  }

  /** One slot: its triple chains its own buffers while the device may look at it, its flag is set
      exactly once its request has been drained, and the recorded status is that request's. */
  ghost predicate SlotOk(d: Dev, h: History, i: nat)
    requires ShapeOk(d, h) && i < N_SLOTS
  {
    && (!h.phase[i].Idle? ==> h.phase[i].k < |h.reqs| && h.reqs[h.phase[i].k].slot == i)
    && (h.phase[i].Queued? || h.phase[i].AtDevice? ==>
          && h.phase[i].k !in h.result && d.header[i] == h.reqs[h.phase[i].k]
          && d.desc[3 * i] == Desc(Header(i), 3 * i + 1)
          && d.desc[3 * i + 1] == Desc(Data(i), 3 * i + 2)
          && d.desc[3 * i + 2].area == Status(i))
    && (h.phase[i].Queued? || h.phase[i].AtDevice? || h.phase[i].InUsed? ==> !d.slotDone[i])
    && (h.phase[i].InUsed? ==> h.drained <= h.phase[i].at < |h.order| && h.order[h.phase[i].at] == h.phase[i].k)
    && (h.phase[i].InUsed? ==> h.phase[i].k in h.result && d.status[i] == h.result[h.phase[i].k])
    && (h.phase[i].Finished? ==> d.slotDone[i] && h.phase[i].k in h.result && d.slotStatus[i] == h.result[h.phase[i].k])
  }

  ghost predicate Inv(d: Dev, h: History) {
    ShapeOk(d, h) && AvailOk(d, h) && UsedOk(d, h) && forall i :: 0 <= i < N_SLOTS ==> SlotOk(d, h, i)
  }

  /** At most one request per slot is waiting in the available ring. */
  lemma FewQueued(d: Dev, h: History)
    requires ShapeOk(d, h) && AvailOk(d, h)
    ensures |h.reqs| - h.fetched <= N_SLOTS
  {
    var a := seq(|h.reqs| - h.fetched, i requires 0 <= i < |h.reqs| - h.fetched => h.reqs[h.fetched + i].slot);
    forall i, j | 0 <= i < j < |a| ensures a[i] != a[j] {
      assert h.phase[a[i]] == Queued(h.fetched + i);
      assert h.phase[a[j]] == Queued(h.fetched + j);
    }
    Pigeons(a, N_SLOTS);
  }

  /** At most one request per slot is waiting in the used ring. */
  lemma FewUsed(d: Dev, h: History)
    requires ShapeOk(d, h) && UsedOk(d, h)
    ensures |h.order| - h.drained <= N_SLOTS
  {
    var n := |h.order| - h.drained;
    assert forall j :: h.drained <= j < |h.order| ==> h.order[j] < |h.reqs|;
    var a := seq(n, i requires 0 <= i < n && h.order[h.drained + i] < |h.reqs| => h.reqs[h.order[h.drained + i]].slot);
    forall i | 0 <= i < n ensures a[i] < N_SLOTS && h.phase[a[i]].InUsed? && h.phase[a[i]].at == h.drained + i {
      var j := h.drained + i;
      assert h.phase[h.reqs[h.order[j]].slot] == InUsed(h.order[j], j);
    }
    Pigeons(a, N_SLOTS);
  }

  // --- the steps ------------------------------------------------------------------------------------

  /** `submit` followed by the flag clearing at the start of `wait_and_drain`. */
  function SubmitDev(d: Dev, r: Request, buf: Sector): (d': Dev)
    requires d.qsize >= 3 * N_SLOTS && |d.desc| == |d.avail| == d.qsize && r.slot < N_SLOTS
    requires |d.header| == |d.status| == |d.data| == |d.slotDone| == N_SLOTS
  {
    var i := r.slot;
    d.(header := d.header[i := r],
       status := d.status[i := 0xFF],
       data := if r.write then d.data[i := buf] else d.data,
       desc := d.desc[3 * i := Desc(Header(i), 3 * i + 1)]
                     [3 * i + 1 := Desc(Data(i), 3 * i + 2)][3 * i + 2 := Desc(Status(i), 0)],
       avail := d.avail[d.availIdx % d.qsize := 3 * i],
       availIdx := (d.availIdx + 1) % WRAP,
       slotDone := d.slotDone[i := false])
  }

  function SubmitHist(h: History, r: Request): (h': History)
    requires r.slot < |h.phase|
  {
    History(h.reqs + [r], h.fetched, h.order, h.drained, h.result, h.phase[r.slot := Queued(|h.reqs|)])
  }

  lemma SubmitInv(d: Dev, h: History, r: Request, buf: Sector)
    requires Inv(d, h) && r.slot < N_SLOTS && h.phase[r.slot] == Idle
    ensures Inv(SubmitDev(d, r, buf), SubmitHist(h, r))
  {
    var d', h' := SubmitDev(d, r, buf), SubmitHist(h, r);
    var n := |h.reqs|;
    FewQueued(d, h);
    WrapKeepsPosition(n, d.qsize);
    WrapNext(n);
    forall k | h'.fetched <= k < |h'.reqs|
      ensures h'.reqs[k].slot < N_SLOTS && h'.phase[h'.reqs[k].slot] == Queued(k)
              && d'.avail[k % d.qsize] == 3 * h'.reqs[k].slot
    {
      if k < n {
        PositionsDiffer(k, n, d.qsize);
      }
    }
    forall i | 0 <= i < N_SLOTS ensures SlotOk(d', h', i) {
      assert SlotOk(d, h, i);
    }
    SubmitUsed(d, h, r, buf);
  }

  lemma SubmitUsed(d: Dev, h: History, r: Request, buf: Sector)
    requires ShapeOk(d, h) && UsedOk(d, h) && r.slot < N_SLOTS && h.phase[r.slot] == Idle
    requires ShapeOk(SubmitDev(d, r, buf), SubmitHist(h, r))
    ensures UsedOk(SubmitDev(d, r, buf), SubmitHist(h, r))
  {
  }

  lemma WrapNext(n: nat)
    ensures (n % WRAP + 1) % WRAP == (n + 1) % WRAP
  {
  }

  /** The device takes the next published chain. */
  function FetchHist(h: History, i: nat): (h': History)
    requires i < |h.phase|
  {
    History(h.reqs, h.fetched + 1, h.order, h.drained, h.result, h.phase[i := AtDevice(h.fetched)])
  }

  /** The head it reads from the ring is the head of the oldest unfetched request. */
  lemma FetchInv(d: Dev, h: History)
    requires Inv(d, h) && h.fetched < |h.reqs|
    ensures var i := d.avail[h.fetched % d.qsize] / 3;
            i == h.reqs[h.fetched].slot < N_SLOTS && Inv(d, FetchHist(h, i))
  {
    var i := h.reqs[h.fetched].slot;
    assert h.phase[i] == Queued(h.fetched) && d.avail[h.fetched % d.qsize] == 3 * i;
    var h' := FetchHist(h, i);
    forall k | h'.fetched <= k < |h'.reqs| ensures h'.phase[h'.reqs[k].slot] == Queued(k) {
      assert h.phase[h.reqs[k].slot] == Queued(k);
    }
    forall j | 0 <= j < N_SLOTS ensures SlotOk(d, h', j) {
      assert SlotOk(d, h, j);
    }
  }

  /** The device carries a request out along its descriptor chain and reports it in the used ring. */
  function CompleteDev(d: Dev, head: nat, st: nat): (d': Dev)
    requires head < |d.desc| && d.desc[head].next < |d.desc| && d.desc[d.desc[head].next].next < |d.desc|
    requires var i := d.desc[head].area.slot; i < |d.header|
    requires var j := d.desc[d.desc[head].next].area.slot; j < |d.data|
    requires var m := d.desc[d.desc[d.desc[head].next].next].area.slot; m < |d.status|
    requires |d.used| == d.qsize > 0
  {
    var second := d.desc[head].next;
    var r := d.header[d.desc[head].area.slot];
    var buf := d.desc[second].area.slot;
    d.(status := d.status[d.desc[d.desc[second].next].area.slot := st],
       data := if st == 0 && !r.write && r.sector in d.disk then d.data[buf := d.disk[r.sector]] else d.data,
       disk := if st == 0 && r.write then d.disk[r.sector := d.data[buf]] else d.disk,
       used := d.used[d.usedIdx % d.qsize := head],
       usedIdx := (d.usedIdx + 1) % WRAP)
  }

  function CompleteHist(h: History, i: nat, k: nat, st: nat): (h': History)
    requires i < |h.phase|
  {
    History(h.reqs, h.fetched, h.order + [k], h.drained, h.result[k := st], h.phase[i := InUsed(k, |h.order|)])
  }

  /** While a slot's request is at the device, its chain leads to that slot's own buffers: the device
      transfers exactly the requested sector into or out of them and touches no other slot. */
  lemma CompleteLaw(d: Dev, h: History, i: nat, st: nat)
    requires Inv(d, h) && i < N_SLOTS && h.phase[i].AtDevice?
    ensures CompleteDev.requires(d, 3 * i, st) && h.phase[i].k < |h.reqs|
    ensures var r, d' := h.reqs[h.phase[i].k], CompleteDev(d, 3 * i, st);
            && r.slot == i && d'.status == d.status[i := st]
            && d'.data == (if st == 0 && !r.write && r.sector in d.disk then d.data[i := d.disk[r.sector]] else d.data)
            && d'.disk == (if st == 0 && r.write then d.disk[r.sector := d.data[i]] else d.disk)
            && d'.header == d.header && d'.desc == d.desc && d'.avail == d.avail
            && d'.slotDone == d.slotDone && d'.slotStatus == d.slotStatus
  {
    assert SlotOk(d, h, i);
  }

  lemma CompleteInv(d: Dev, h: History, i: nat, st: nat)
    requires Inv(d, h) && i < N_SLOTS && h.phase[i].AtDevice?
    ensures CompleteDev.requires(d, 3 * i, st)
    ensures Inv(CompleteDev(d, 3 * i, st), CompleteHist(h, i, h.phase[i].k, st))
  {
    CompleteLaw(d, h, i, st);
    var k := h.phase[i].k;
    var d', h' := CompleteDev(d, 3 * i, st), CompleteHist(h, i, k, st);
    WrapNext(|h.order|);
    CompleteUsed(d, h, i, st);
    forall j | 0 <= j < N_SLOTS ensures SlotOk(d', h', j) {
      assert SlotOk(d, h, j);
      assert SlotOk(d, h, i);
    }
    forall m | h'.fetched <= m < |h'.reqs| ensures h'.phase[h'.reqs[m].slot] == Queued(m) {
      assert h.phase[h.reqs[m].slot] == Queued(m);
    }
  }

  lemma CompleteUsed(d: Dev, h: History, i: nat, st: nat)
    requires Inv(d, h) && i < N_SLOTS && h.phase[i].AtDevice? && CompleteDev.requires(d, 3 * i, st)
    requires ShapeOk(CompleteDev(d, 3 * i, st), CompleteHist(h, i, h.phase[i].k, st))
    ensures UsedOk(CompleteDev(d, 3 * i, st), CompleteHist(h, i, h.phase[i].k, st))
  {
    var k := h.phase[i].k;
    var d', h' := CompleteDev(d, 3 * i, st), CompleteHist(h, i, k, st);
    var n := |h.order|;
    FewUsed(d, h);
    WrapKeepsPosition(n, d.qsize);
    assert SlotOk(d, h, i);
    forall j | h'.drained <= j < n
      ensures h'.order[j] != k && h'.phase[h'.reqs[h'.order[j]].slot] == InUsed(h'.order[j], j)
      ensures d'.used[j % d.qsize] == 3 * h'.reqs[h'.order[j]].slot
    {
      assert h.phase[h.reqs[h.order[j]].slot] == InUsed(h.order[j], j);
      PositionsDiffer(j, n, d.qsize);
    }
  }

  /** One round of the `drain_used` loop. */
  function DrainDev(d: Dev): (d': Dev)
    requires |d.used| == d.qsize > 0 && |d.status| == |d.slotDone| == |d.slotStatus| == N_SLOTS
  {
    var slot := d.used[d.lastUsed % d.qsize] / 3;
    d.(slotStatus := if slot < N_SLOTS then d.slotStatus[slot := d.status[slot]] else d.slotStatus,
       slotDone := if slot < N_SLOTS then d.slotDone[slot := true] else d.slotDone,
       lastUsed := (d.lastUsed + 1) % WRAP)
  }

  function DrainHist(h: History): (h': History)
    requires h.drained < |h.order| && SlotOf(h, h.order[h.drained]) < |h.phase|
  {
    var k := h.order[h.drained];
    History(h.reqs, h.fetched, h.order, h.drained + 1, h.result, h.phase[SlotOf(h, k) := Finished(k)])
  }

  function SlotOf(h: History, k: nat): (r: nat) { if k < |h.reqs| then h.reqs[k].slot else 0 }

  /** The used-ring element read is that of the oldest undrained completion; its request's slot, and
      no other, gets the flag and that request's status. */
  lemma DrainInv(d: Dev, h: History)
    requires Inv(d, h) && h.drained < |h.order|
    ensures SlotOf(h, h.order[h.drained]) < N_SLOTS && h.order[h.drained] in h.result
    ensures var i := SlotOf(h, h.order[h.drained]);
            && DrainDev(d).slotDone == d.slotDone[i := true]
            && DrainDev(d).slotStatus == d.slotStatus[i := h.result[h.order[h.drained]]]
    ensures Inv(DrainDev(d), DrainHist(h))
  {
    var k := h.order[h.drained];
    var i := SlotOf(h, k);
    WrapKeepsPosition(h.drained, d.qsize);
    WrapNext(h.drained);
    assert h.phase[i] == InUsed(k, h.drained) && SlotOk(d, h, i);
    var d', h' := DrainDev(d), DrainHist(h);
    forall j | 0 <= j < N_SLOTS ensures SlotOk(d', h', j) {
      assert SlotOk(d, h, j);
    }
    forall j | h'.drained <= j < |h'.order| ensures h'.phase[h'.reqs[h'.order[j]].slot] == InUsed(h'.order[j], j) {
      assert h.phase[h.reqs[h.order[j]].slot] == InUsed(h.order[j], j) && h.order[j] != k;
    }
    forall m | h'.fetched <= m < |h'.reqs| ensures h'.phase[h'.reqs[m].slot] == Queued(m) {
      assert h.phase[h.reqs[m].slot] == Queued(m);
    }
  }

  /** The driver's test for "nothing to drain" is right although both indices wrap. */
  lemma DrainTest(d: Dev, h: History)
    requires Inv(d, h)
    ensures d.lastUsed == d.usedIdx <==> h.drained == |h.order|
  {
    FewUsed(d, h);
  }

  // --- the driver -------------------------------------------------------------------------------

  class Disk {
    var dev: Dev
    ghost var h: History

    ghost predicate Valid()
      reads this
    {
      Inv(dev, h)
    }

    /** `init` over a power-of-two queue of at least 24 entries. */
    constructor (qsize: nat, disk: map<nat, Sector>)
      requires qsize >= 3 * N_SLOTS && WRAP % qsize == 0
      ensures Valid() && h == History([], 0, [], 0, map[], seq(N_SLOTS, _ => Idle)) && dev.disk == disk
    {
      dev := Dev(qsize, seq(qsize, _ => Desc(Header(0), 0)), seq(qsize, _ => 0), 0, seq(qsize, _ => 0), 0, 0,
                 seq(N_SLOTS, _ => Request(0, 0, false)), seq(N_SLOTS, _ => 0), seq(N_SLOTS, _ => []),
                 seq(N_SLOTS, _ => false), seq(N_SLOTS, _ => 0), disk);
      h := History([], 0, [], 0, map[], seq(N_SLOTS, _ => Idle));
    }

    /** `submit` on a slot that the pool supervisor handed out, and the flag clearing of
        `wait_and_drain`. */
    method Submit(slot: nat, sector: nat, write: bool, buf: Sector)
      requires Valid() && slot < N_SLOTS && h.phase[slot] == Idle
      modifies this
      ensures Valid() && dev == SubmitDev(old(dev), Request(slot, sector, write), buf)
      ensures h == SubmitHist(old(h), Request(slot, sector, write))
    {
      var r := Request(slot, sector, write);
      SubmitInv(dev, h, r, buf);
      h := SubmitHist(h, r);
      var head := 3 * slot;
      if write {
        dev := dev.(data := dev.data[slot := buf]);
      }
      dev := dev.(header := dev.header[slot := r], status := dev.status[slot := 0xFF]);
      dev := dev.(desc := dev.desc[head := Desc(Header(slot), head + 1)]);
      dev := dev.(desc := dev.desc[head + 1 := Desc(Data(slot), head + 2)]);
      dev := dev.(desc := dev.desc[head + 2 := Desc(Status(slot), 0)]);
      dev := dev.(avail := dev.avail[dev.availIdx % dev.qsize := head]);
      dev := dev.(availIdx := (dev.availIdx + 1) % WRAP);
      dev := dev.(slotDone := dev.slotDone[slot := false]);
    }

    /** `drain_used`: consumes every completion, in order, and stops. */
    method DrainUsed()
      requires Valid()
      modifies this
      ensures Valid() && h.drained == |h.order|
      ensures h.order == old(h.order) && h.reqs == old(h.reqs) && h.fetched == old(h.fetched)
              && h.result == old(h.result)
      ensures forall i :: 0 <= i < N_SLOTS ==>
                h.phase[i] == if old(h.phase)[i].InUsed? then Finished(old(h.phase)[i].k) else old(h.phase)[i]
    {
      ghost var h0 := h;
      var usedIdx := dev.usedIdx;
      DrainTest(dev, h);
      while dev.lastUsed != usedIdx
        invariant Valid() && dev.usedIdx == usedIdx && Draining(h0, h)
        invariant dev.lastUsed == usedIdx <==> h.drained == |h.order|
        decreases |h.order| - h.drained
      {
        DrainInv(dev, h);
        DrainingStep(dev, h0, h);
        DrainOne();
        DrainTest(dev, h);
      }
      DrainedAll(dev, h0, h);
    }

    /** The loop body: status and flag of the slot behind the oldest used-ring element. */
    method DrainOne()
      requires Valid() && h.drained < |h.order| && SlotOf(h, h.order[h.drained]) < N_SLOTS
      modifies this
      ensures Valid() && dev == DrainDev(old(dev)) && h == DrainHist(old(h))
    {
      DrainInv(dev, h);
      var slot := dev.used[dev.lastUsed % dev.qsize] / 3;
      if slot < N_SLOTS {
        var status := dev.status[slot];
        dev := dev.(slotStatus := dev.slotStatus[slot := status], slotDone := dev.slotDone[slot := true]);
      }
      dev := dev.(lastUsed := (dev.lastUsed + 1) % WRAP);
      h := DrainHist(h);
    }

    /** The end of `wait_and_drain`: once the slot's own flag is set, the status is the one the device
        gave for the request that this slot submitted. */
    method TakeStatus(slot: nat) returns (ready: bool, status: nat)
      requires Valid() && slot < N_SLOTS && h.phase[slot] != Idle
      modifies this`h
      ensures Valid() && (ready <==> old(h.phase)[slot].Finished?)
      ensures ready ==> old(h.phase)[slot].k in h.result && status == h.result[old(h.phase)[slot].k]
                        && h.reqs[old(h.phase)[slot].k].slot == slot && h.phase == old(h.phase)[slot := Idle]
      ensures !ready ==> h == old(h)
    {
      assert SlotOk(dev, h, slot);
      ready, status := dev.slotDone[slot], dev.slotStatus[slot];
      if ready {
        TakeInv(dev, h, slot);
        h := History(h.reqs, h.fetched, h.order, h.drained, h.result, h.phase[slot := Idle]);
      }
    }
  }

  lemma TakeInv(d: Dev, h: History, slot: nat)
    requires Inv(d, h) && slot < N_SLOTS && h.phase[slot].Finished?
    ensures Inv(d, History(h.reqs, h.fetched, h.order, h.drained, h.result, h.phase[slot := Idle]))
  {
    var h' := History(h.reqs, h.fetched, h.order, h.drained, h.result, h.phase[slot := Idle]);
    forall j | 0 <= j < N_SLOTS ensures SlotOk(d, h', j) {
      assert SlotOk(d, h, j);
    }
  }

  /** Part of the completions have been drained. */
  ghost predicate Draining(h0: History, h: History) {
    && h.reqs == h0.reqs && h.fetched == h0.fetched && h.order == h0.order && h.result == h0.result
    && |h.phase| == |h0.phase| == N_SLOTS && h.drained <= |h.order|
    && forall i :: 0 <= i < N_SLOTS ==>
         h.phase[i] == h0.phase[i] || (h0.phase[i].InUsed? && h.phase[i] == Finished(h0.phase[i].k))
  }

  lemma DrainingStep(d: Dev, h0: History, h: History)
    requires Inv(d, h) && Draining(h0, h) && h.drained < |h.order| && SlotOf(h, h.order[h.drained]) < N_SLOTS
    ensures Draining(h0, DrainHist(h))
  {
  }

  lemma DrainedAll(d: Dev, h0: History, h: History)
    requires Inv(d, h) && Draining(h0, h) && h.drained == |h.order|
    ensures forall i :: 0 <= i < N_SLOTS ==>
              h.phase[i] == if h0.phase[i].InUsed? then Finished(h0.phase[i].k) else h0.phase[i]
  {
    forall i | 0 <= i < N_SLOTS ensures !h.phase[i].InUsed? {
      assert SlotOk(d, h, i);
    }
  }
}
