/** Whole runs of the virtio-blk protocol (kernel/src/virtio_blk.rs): driver and device steps in any
    interleaving. From the empty start every result that a waiter takes was completed once and drained
    once, in that order, and is that of the waiter's own request. */
module VirtioRun {
  import opened Virtio

  /** Driver and device steps, in any interleaving and with any order of completion. */
  datatype Event =
    | Submitted(r: Request, buf: Sector)
    | Fetched
    | Completed(slot: nat, st: nat)
    | DrainedOne
    | Taken(slot: nat)

  ghost predicate Step(d: Dev, h: History, e: Event, d': Dev, h': History)
    requires Inv(d, h)
  {
    match e
    case Submitted(r, buf) =>
      r.slot < N_SLOTS && h.phase[r.slot] == Idle && d' == SubmitDev(d, r, buf) && h' == SubmitHist(h, r)
    case Fetched =>
      h.fetched < |h.reqs| && d' == d && d.avail[h.fetched % d.qsize] / 3 < N_SLOTS
      && h' == FetchHist(h, d.avail[h.fetched % d.qsize] / 3)
    case Completed(i, st) =>
      i < N_SLOTS && h.phase[i].AtDevice? && CompleteDev.requires(d, 3 * i, st)
      && d' == CompleteDev(d, 3 * i, st) && h' == CompleteHist(h, i, h.phase[i].k, st)
    case DrainedOne =>
      d.lastUsed != d.usedIdx && h.drained < |h.order| && SlotOf(h, h.order[h.drained]) < N_SLOTS
      && d' == DrainDev(d) && h' == DrainHist(h)
    case Taken(i) =>
      i < N_SLOTS && d.slotDone[i] && h.phase[i].Finished? && d' == d
      && h' == History(h.reqs, h.fetched, h.order, h.drained, h.result, h.phase[i := Idle])
  }

  lemma StepInv(d: Dev, h: History, e: Event, d': Dev, h': History)
    requires Inv(d, h) && Step(d, h, e, d', h')
    ensures Inv(d', h') && h.reqs <= h'.reqs && h.order <= h'.order
    ensures forall k :: k in h.result ==> k in h'.result && h'.result[k] == h.result[k]
  {
    match e
    case Submitted(r, buf) => SubmitInv(d, h, r, buf);
    case Fetched => FetchInv(d, h);
    case Completed(i, st) =>
      assert SlotOk(d, h, i);
      CompleteInv(d, h, i, st);
    case DrainedOne => DrainInv(d, h);
    case Taken(i) => TakeInv(d, h, i);
  }

  ghost predicate IsRun(ds: seq<Dev>, hs: seq<History>, es: seq<Event>) {
    && |ds| == |hs| == |es| + 1 && Inv(ds[0], hs[0])
    && forall k :: 0 <= k < |es| ==> Inv(ds[k], hs[k]) ==> Step(ds[k], hs[k], es[k], ds[k + 1], hs[k + 1])
  }

  lemma {:induction false} RunInv(ds: seq<Dev>, hs: seq<History>, es: seq<Event>, k: nat)
    requires IsRun(ds, hs, es) && k <= |es|
    ensures Inv(ds[k], hs[k])
  {
    if k > 0 {
      RunInv(ds, hs, es, k - 1);
      StepInv(ds[k - 1], hs[k - 1], es[k - 1], ds[k], hs[k]);
    }
  }

  lemma {:induction false} ResultStays(ds: seq<Dev>, hs: seq<History>, es: seq<Event>, a: nat, b: nat, k: nat)
    requires IsRun(ds, hs, es) && a <= b <= |es| && k in hs[a].result
    ensures k in hs[b].result && hs[b].result[k] == hs[a].result[k]
    decreases b
  {
    if a < b {
      ResultStays(ds, hs, es, a, b - 1, k);
      RunInv(ds, hs, es, b - 1);
      StepInv(ds[b - 1], hs[b - 1], es[b - 1], ds[b], hs[b]);
    }
  }

  // --- one completion, one drain -----------------------------------------------------------------

  /** A run from the state that `init` leaves. */
  ghost predicate FromStart(ds: seq<Dev>, hs: seq<History>, es: seq<Event>) {
    IsRun(ds, hs, es) && hs[0] == History([], 0, [], 0, map[], seq(N_SLOTS, _ => Idle))
  }

  /** Step `c` is the device's completion of request `k`. */
  ghost predicate CompletesAt(hs: seq<History>, es: seq<Event>, c: nat, k: nat) {
    && c < |es| && c < |hs| && es[c].Completed? && es[c].slot < |hs[c].phase|
    && hs[c].phase[es[c].slot] == AtDevice(k)
  }

  /** Step `d` drains the completion of request `k`. */
  ghost predicate DrainsAt(hs: seq<History>, es: seq<Event>, d: nat, k: nat) {
    d < |es| && d < |hs| && es[d] == DrainedOne && hs[d].drained < |hs[d].order| && hs[d].order[hs[d].drained] == k
  }

  lemma StepOf(ds: seq<Dev>, hs: seq<History>, es: seq<Event>, k: nat)
    requires IsRun(ds, hs, es) && k < |es|
    ensures Inv(ds[k], hs[k]) && Step(ds[k], hs[k], es[k], ds[k + 1], hs[k + 1])
  {
    RunInv(ds, hs, es, k);
  }

  /** A completion is recorded with its status. */
  lemma CompletionRecorded(ds: seq<Dev>, hs: seq<History>, es: seq<Event>, c: nat, k: nat)
    requires IsRun(ds, hs, es) && CompletesAt(hs, es, c, k)
    ensures k !in hs[c].result && k in hs[c + 1].result && hs[c + 1].result[k] == es[c].st
  {
    StepOf(ds, hs, es, c);
    assert SlotOk(ds[c], hs[c], es[c].slot);
  }

  /** A result that is known was reported by a completion. */
  lemma {:induction false} ResultHasCompletion(ds: seq<Dev>, hs: seq<History>, es: seq<Event>, b: nat, k: nat)
    returns (c: nat)
    requires FromStart(ds, hs, es) && b <= |es| && k in hs[b].result
    ensures c < b && CompletesAt(hs, es, c, k)
    decreases b
  {
    StepOf(ds, hs, es, b - 1);
    if k in hs[b - 1].result {
      c := ResultHasCompletion(ds, hs, es, b - 1, k);
    } else {
      c := b - 1;
    }
  }

  /** No request is completed twice. */
  lemma CompletedOnce(ds: seq<Dev>, hs: seq<History>, es: seq<Event>, c: nat, c': nat, k: nat)
    requires IsRun(ds, hs, es) && CompletesAt(hs, es, c, k) && CompletesAt(hs, es, c', k)
    ensures c == c'
  {
    CompletionRecorded(ds, hs, es, c, k);
    CompletionRecorded(ds, hs, es, c', k);
    if c < c' {
      ResultStays(ds, hs, es, c + 1, c', k);
    } else if c' < c {
      ResultStays(ds, hs, es, c' + 1, c, k);
    }
  }

  /** The driver's position in the order of completions only advances. */
  lemma {:induction false} DrainedAdvances(ds: seq<Dev>, hs: seq<History>, es: seq<Event>, a: nat, b: nat)
    requires IsRun(ds, hs, es) && a <= b <= |es|
    ensures hs[a].drained <= hs[b].drained && hs[a].order <= hs[b].order
    decreases b
  {
    if a < b {
      DrainedAdvances(ds, hs, es, a, b - 1);
      StepOf(ds, hs, es, b - 1);
      StepInv(ds[b - 1], hs[b - 1], es[b - 1], ds[b], hs[b]);
    }
  }

  /** No request is drained twice. */
  lemma DrainedOnlyOnce(ds: seq<Dev>, hs: seq<History>, es: seq<Event>, d: nat, d': nat, k: nat)
    requires IsRun(ds, hs, es) && DrainsAt(hs, es, d, k) && DrainsAt(hs, es, d', k)
    ensures d == d'
  {
    if d < d' {
      DrainedLater(ds, hs, es, d, d', k);
    } else if d' < d {
      DrainedLater(ds, hs, es, d', d, k);
    }
  }

  lemma DrainedLater(ds: seq<Dev>, hs: seq<History>, es: seq<Event>, d: nat, d': nat, k: nat)
    requires IsRun(ds, hs, es) && DrainsAt(hs, es, d, k) && d < d' < |es|
    ensures !DrainsAt(hs, es, d', k)
  {
    StepOf(ds, hs, es, d);
    StepOf(ds, hs, es, d');
    DrainedAdvances(ds, hs, es, d + 1, d');
    assert hs[d].drained < hs[d'].drained && hs[d'].order[hs[d].drained] == k;
  }

  /** A slot is marked finished by the drain of its request. */
  lemma {:induction false} FinishedHasDrain(ds: seq<Dev>, hs: seq<History>, es: seq<Event>, b: nat, i: nat)
    returns (d: nat)
    requires FromStart(ds, hs, es) && b <= |es| && i < |hs[b].phase| && hs[b].phase[i].Finished?
    ensures d < b && DrainsAt(hs, es, d, hs[b].phase[i].k)
    decreases b
  {
    StepOf(ds, hs, es, b - 1);
    if hs[b - 1].phase[i] == hs[b].phase[i] {
      d := FinishedHasDrain(ds, hs, es, b - 1, i);
    } else {
      d := b - 1;
    }
  }

  /** In every run from the empty start: what a waiter takes is the result of the request its own slot
      submitted. The device completed that request exactly once, the driver drained it exactly once
      after that and before the waiter took it, and the status taken is the one the device gave. */
  lemma TakenOnce(ds: seq<Dev>, hs: seq<History>, es: seq<Event>, t: nat) returns (k: nat, c: nat, d: nat)
    requires FromStart(ds, hs, es) && t < |es| && es[t].Taken?
    ensures Inv(ds[t], hs[t]) && es[t].slot < N_SLOTS && hs[t].phase[es[t].slot] == Finished(k)
    ensures k < |hs[t].reqs| && hs[t].reqs[k].slot == es[t].slot
    ensures c < d < t && CompletesAt(hs, es, c, k) && DrainsAt(hs, es, d, k)
    ensures forall c' :: CompletesAt(hs, es, c', k) ==> c' == c
    ensures forall d' :: DrainsAt(hs, es, d', k) ==> d' == d
    ensures ds[t].slotStatus[es[t].slot] == es[c].st
  {
    StepOf(ds, hs, es, t);
    var i := es[t].slot;
    assert SlotOk(ds[t], hs[t], i);
    k := hs[t].phase[i].k;
    d := FinishedHasDrain(ds, hs, es, t, i);
    RunInv(ds, hs, es, d);
    c := ResultHasCompletion(ds, hs, es, d, k);
    CompletionRecorded(ds, hs, es, c, k);
    ResultStays(ds, hs, es, c + 1, t, k);
    forall c' | CompletesAt(hs, es, c', k) ensures c' == c {
      CompletedOnce(ds, hs, es, c, c', k);
    }
    forall d' | DrainsAt(hs, es, d', k) ensures d' == d {
      DrainedOnlyOnce(ds, hs, es, d, d', k);
    }
  }

  // --- the data ------------------------------------------------------------------------------------

  /** Slot `i` has request `k` behind it at the device. */
  predicate Done(h: History, i: nat, k: nat) {
    i < |h.phase| && (h.phase[i].InUsed? || h.phase[i].Finished?) && h.phase[i].k == k
  }

  /** Slot `i` has request `k` before it at the device. */
  predicate Waiting(h: History, i: nat, k: nat) {
    i < |h.phase| && (h.phase[i].Queued? || h.phase[i].AtDevice?) && h.phase[i].k == k
  }

  /** A step before which the slot is not done with request `k`, and after which it is, completes it. */
  lemma DoneStep(ds: seq<Dev>, hs: seq<History>, es: seq<Event>, b: nat, i: nat, k: nat)
    requires IsRun(ds, hs, es) && b < |es| && i < N_SLOTS && Done(hs[b + 1], i, k)
    ensures i < |ds[b].data| && i < |ds[b + 1].data|
    ensures if Done(hs[b], i, k) then ds[b + 1].data[i] == ds[b].data[i]
            else CompletesAt(hs, es, b, k) && es[b].slot == i
  {
    StepOf(ds, hs, es, b);
    assert SlotOk(ds[b], hs[b], i);
    if es[b].Completed? {
      CompleteLaw(ds[b], hs[b], es[b].slot, es[b].st);
    }
    if es[b].DrainedOne? {
      DrainInv(ds[b], hs[b]);
    }
    RunInv(ds, hs, es, b + 1);
  }

  lemma DoneHasResult(ds: seq<Dev>, hs: seq<History>, es: seq<Event>, b: nat, i: nat, k: nat)
    requires IsRun(ds, hs, es) && b <= |es| && i < N_SLOTS && Done(hs[b], i, k)
    ensures k in hs[b].result
  {
    RunInv(ds, hs, es, b);
    assert SlotOk(ds[b], hs[b], i);
  }

  /** The buffer of a slot stays as the completion left it until the waiter has taken the result. */
  lemma {:induction false} BufferKept(ds: seq<Dev>, hs: seq<History>, es: seq<Event>, c: nat, b: nat, i: nat, k: nat)
    requires IsRun(ds, hs, es) && CompletesAt(hs, es, c, k) && c < b <= |es| && i < N_SLOTS && Done(hs[b], i, k)
    ensures es[c].slot == i && i < |ds[b].data| && i < |ds[c + 1].data| && ds[b].data[i] == ds[c + 1].data[i]
    decreases b
  {
    CompletionRecorded(ds, hs, es, c, k);
    DoneStep(ds, hs, es, b - 1, i, k);
    if Done(hs[b - 1], i, k) {
      DoneHasResult(ds, hs, es, b - 1, i, k);
      BufferKept(ds, hs, es, c, b - 1, i, k);
    } else {
      CompletedOnce(ds, hs, es, c, b - 1, k);
    }
  }

  /** Requests stay on record. */
  lemma {:induction false} RequestsStay(ds: seq<Dev>, hs: seq<History>, es: seq<Event>, a: nat, b: nat)
    requires IsRun(ds, hs, es) && a <= b <= |es|
    ensures hs[a].reqs <= hs[b].reqs
    decreases b
  {
    if a < b {
      RequestsStay(ds, hs, es, a, b - 1);
      StepOf(ds, hs, es, b - 1);
      StepInv(ds[b - 1], hs[b - 1], es[b - 1], ds[b], hs[b]);
    }
  }

  /** What a waiter finds in its buffer when a read succeeded: the sector as the disk had it at the one
      completion of its request. */
  lemma ReadArrives(ds: seq<Dev>, hs: seq<History>, es: seq<Event>, t: nat) returns (k: nat, c: nat)
    requires FromStart(ds, hs, es) && t < |es| && es[t].Taken?
    ensures es[t].slot < N_SLOTS == |ds[t].data| == |ds[t].slotStatus|
    ensures k < |hs[t].reqs| && hs[t].reqs[k].slot == es[t].slot
    ensures c < t && CompletesAt(hs, es, c, k) && ds[t].slotStatus[es[t].slot] == es[c].st
    ensures var r := hs[t].reqs[k];
            es[c].st == 0 && !r.write && r.sector in ds[c].disk ==> ds[t].data[es[t].slot] == ds[c].disk[r.sector]
  {
    var d;
    k, c, d := TakenOnce(ds, hs, es, t);
    BufferKept(ds, hs, es, c, t, es[t].slot, k);
    StepOf(ds, hs, es, c);
    CompleteLaw(ds[c], hs[c], es[c].slot, es[c].st);
    RequestsStay(ds, hs, es, c, t);
  }

  /** A step before which request `k` does not wait in the slot, and after which it does, submits it. */
  lemma WaitingStep(ds: seq<Dev>, hs: seq<History>, es: seq<Event>, b: nat, i: nat, k: nat)
    requires IsRun(ds, hs, es) && b < |es| && i < N_SLOTS && Waiting(hs[b + 1], i, k)
    ensures i < |ds[b].data| && i < |ds[b + 1].data|
    ensures if Waiting(hs[b], i, k) then ds[b + 1].data[i] == ds[b].data[i]
            else es[b].Submitted? && es[b].r.slot == i && k == |hs[b].reqs|
                 && (es[b].r.write ==> ds[b + 1].data[i] == es[b].buf)
  {
    StepOf(ds, hs, es, b);
    assert SlotOk(ds[b], hs[b], i);
    if es[b].Completed? {
      CompleteLaw(ds[b], hs[b], es[b].slot, es[b].st);
    }
    if es[b].Fetched? {
      FetchInv(ds[b], hs[b]);
    }
    RunInv(ds, hs, es, b + 1);
  }

  /** The submission of a request that waits, with its buffer still in place. */
  lemma {:induction false} SubmissionOf(ds: seq<Dev>, hs: seq<History>, es: seq<Event>, b: nat, i: nat, k: nat)
    returns (s: nat)
    requires FromStart(ds, hs, es) && b <= |es| && i < N_SLOTS && Waiting(hs[b], i, k)
    ensures s < b && es[s].Submitted? && es[s].r.slot == i && k == |hs[s].reqs| && i < |ds[b].data|
    ensures es[s].r.write ==> ds[b].data[i] == es[s].buf
    decreases b
  {
    WaitingStep(ds, hs, es, b - 1, i, k);
    if Waiting(hs[b - 1], i, k) {
      s := SubmissionOf(ds, hs, es, b - 1, i, k);
    } else {
      s := b - 1;
    }
  }

  /** What the disk gets when a write succeeds: the sector of the request, and exactly the bytes that were
      handed to its submission. */
  lemma WriteArrives(ds: seq<Dev>, hs: seq<History>, es: seq<Event>, c: nat, k: nat) returns (s: nat)
    requires FromStart(ds, hs, es) && CompletesAt(hs, es, c, k) && es[c].st == 0
    ensures s < c && es[s].Submitted? && k == |hs[s].reqs| && es[s].r.slot == es[c].slot
    ensures ds[c + 1].disk == if es[s].r.write then ds[c].disk[es[s].r.sector := es[s].buf] else ds[c].disk
  {
    StepOf(ds, hs, es, c);
    CompleteLaw(ds[c], hs[c], es[c].slot, es[c].st);
    s := SubmissionOf(ds, hs, es, c, es[c].slot, k);
    StepOf(ds, hs, es, s);
    RequestsStay(ds, hs, es, s + 1, c);
    assert hs[c].reqs[k] == hs[s + 1].reqs[k] == es[s].r;
  }
}
