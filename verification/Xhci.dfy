/** The cycle-bit rings of kernel/src/xhci.rs (section 4.9 of the xHCI specification).

    Transfer and command rings: the driver stamps each TRB with its producer cycle and closes the
    ring with a toggling Link TRB; the controller consumes while the cycle bit matches its own.
    The event ring is the mirror image, without a Link TRB. Laps are counted without bound, the
    rings only ever see their parity. */
module Xhci {
  import opened Wrappers

  const RING_TRBS := 256
  const LAST := 255

  /** A TRB: what it carries and its cycle bit. */
  datatype Trb = Trb(data: nat, cycle: bool)

  /** The cycle bit of a lap: 1 on the first. */
  predicate Cycle(lap: nat) { lap % 2 == 0 }

  // --- command and transfer rings -----------------------------------------------------------------

  class TransferRing {
    const ring: array<Trb>
    var linkCycle: bool
    var enqueue: nat
    var pcs: bool
    // The controller's side.
    var dequeue: nat
    var ccs: bool
    ghost var lap: nat
    ghost var seenLap: nat
    ghost var sent: seq<nat>
    ghost var got: seq<nat>

    /** Slot `i` holds the TRB of the current lap below the enqueue position, of the previous lap above,
        and nothing with cycle 1 before the first lap; the Link TRB carries the previous lap's cycle, and
        1 from the start; the controller is in this lap, the previous one, or just past a full first lap. */
    ghost predicate Valid()
      reads this, ring
    {
      && ring.Length == LAST
      && enqueue <= LAST && |sent| == LAST * lap + enqueue && pcs == Cycle(lap)
      && dequeue <= LAST && |got| == LAST * seenLap + dequeue && ccs == Cycle(seenLap)
      && |got| <= |sent| <= |got| + LAST && got == sent[..|got|]
      && (forall i :: 0 <= i < enqueue ==> ring[i] == Trb(sent[LAST * lap + i], Cycle(lap)))
      && (lap > 0 ==> forall i :: enqueue <= i < LAST ==> ring[i] == Trb(sent[LAST * (lap - 1) + i], Cycle(lap - 1)))
      && (lap == 0 ==> forall i :: enqueue <= i < LAST ==> !ring[i].cycle)
      && linkCycle == (lap == 0 || Cycle(lap - 1))
      && (seenLap == lap || seenLap + 1 == lap || (seenLap == lap + 1 && lap == 0 && enqueue == LAST && dequeue == 0))
    }

    /** The zeroed page with `write_link_trb`, and both sides at slot 0 with cycle 1. */
    constructor ()
      ensures Valid() && sent == [] && got == [] && fresh(ring)
      ensures pcs && ccs && forall i :: 0 <= i < ring.Length ==> !ring[i].cycle
    {
      ring := new Trb[LAST](_ => Trb(0, false));
      linkCycle, enqueue, pcs, dequeue, ccs := true, 0, true, 0, true;
      lap, seenLap, sent, got := 0, 0, [], [];
    }

    /** `enqueue_cmd`, `enqueue_ep0` and `enqueue_bulk`: with fewer than 255 TRBs outstanding. */
    method Enqueue(data: nat)
      requires Valid() && |sent| - |got| < LAST
      modifies this`linkCycle, this`enqueue, this`pcs, this`lap, this`sent, ring
      ensures Valid() && sent == old(sent) + [data]
    {
      if enqueue >= RING_TRBS - 1 {
        WrapProducer();
      }
      Stamp(data);
    }

    method Stamp(data: nat)
      requires Valid() && |sent| - |got| < LAST && enqueue < LAST
      modifies this`enqueue, this`sent, ring
      ensures Valid() && sent == old(sent) + [data]
    {
      ring[enqueue] := Trb(data, pcs);
      sent := sent + [data];
      enqueue := enqueue + 1;
    }

    /** The Link TRB gets the current cycle, then the next lap begins. */
    method WrapProducer()
      requires Valid() && enqueue == LAST && |sent| - |got| < LAST
      modifies this`linkCycle, this`enqueue, this`pcs, this`lap
      ensures Valid() && enqueue == 0
    {
      linkCycle := pcs;
      enqueue := 0;
      pcs := !pcs;
      lap := lap + 1;
    }

    /** One look of the controller: it follows the Link TRB or takes a TRB when the cycle bit matches.
        It takes exactly the next TRB sent, and gets stuck only when there is none. */
    method Consume() returns (r: Option<nat>)
      requires Valid()
      modifies this`dequeue, this`ccs, this`seenLap, this`got
      ensures Valid()
      ensures r.Some? ==> |old(got)| < |sent| && got == old(got) + [r.value] && r.value == sent[|old(got)|]
      ensures r.None? ==> got == old(got)
      ensures r.None? && |got| < |sent| ==> old(dequeue) == LAST && dequeue == 0
    {
      if dequeue == LAST {
        FollowLink();
        return None;
      }
      r := TakeTrb();
    }

    method FollowLink()
      requires Valid() && dequeue == LAST
      modifies this`dequeue, this`ccs, this`seenLap
      ensures Valid() && (|got| < |sent| ==> dequeue == 0)
    {
      if linkCycle == ccs {
        dequeue := 0;
        ccs := !ccs;
        seenLap := seenLap + 1;
      }
    }

    method TakeTrb() returns (r: Option<nat>)
      requires Valid() && dequeue < LAST
      modifies this`dequeue, this`got
      ensures Valid()
      ensures r.Some? <==> |old(got)| < |sent|
      ensures r.Some? ==> got == old(got) + [r.value] && r.value == sent[|old(got)|]
      ensures r.None? ==> got == old(got)
    {
      var t := ring[dequeue];
      if t.cycle != ccs {
        return None;
      }
      dequeue := dequeue + 1;
      got := got + [t.data];
      return Some(t.data);
    }
  }

  // --- the event ring ------------------------------------------------------------------------------

  class EventRing {
    const ring: array<Trb>
    var dequeue: nat
    var ccs: bool
    // The controller's side.
    var enqueue: nat
    var pcs: bool
    ghost var lap: nat
    ghost var seenLap: nat
    ghost var sent: seq<nat>
    ghost var got: seq<nat>

    /** As for the transfer ring, with a cursor possibly at the very end before it wraps. */
    ghost predicate Running()
      reads this, ring
    {
      && ring.Length == RING_TRBS
      && enqueue <= RING_TRBS && |sent| == RING_TRBS * lap + enqueue && pcs == Cycle(lap)
      && dequeue <= RING_TRBS && |got| == RING_TRBS * seenLap + dequeue && ccs == Cycle(seenLap)
      && |got| <= |sent| <= |got| + RING_TRBS && got == sent[..|got|]
      && (forall i :: 0 <= i < enqueue ==> ring[i] == Trb(sent[RING_TRBS * lap + i], Cycle(lap)))
      && (lap > 0 ==> forall i :: enqueue <= i < RING_TRBS ==>
            ring[i] == Trb(sent[RING_TRBS * (lap - 1) + i], Cycle(lap - 1)))
      && (lap == 0 ==> forall i :: enqueue <= i < RING_TRBS ==> !ring[i].cycle)
      && (seenLap == lap || seenLap + 1 == lap)
    }

    ghost predicate Valid()
      reads this, ring
    {
      Running() && enqueue < RING_TRBS && dequeue < RING_TRBS
    }

    constructor ()
      ensures Valid() && sent == [] && got == [] && fresh(ring)
      ensures pcs && ccs && forall i :: 0 <= i < ring.Length ==> !ring[i].cycle
    {
      ring := new Trb[RING_TRBS](_ => Trb(0, false));
      enqueue, pcs, dequeue, ccs := 0, true, 0, true;
      lap, seenLap, sent, got := 0, 0, [], [];
    }

    /** The controller posts an event; it never overruns the driver. */
    method Post(data: nat)
      requires Valid() && |sent| - |got| < RING_TRBS
      modifies this`enqueue, this`pcs, this`lap, this`sent, ring
      ensures Valid() && sent == old(sent) + [data]
    {
      Stamp(data);
      if enqueue == RING_TRBS {
        enqueue := 0;
        pcs := !pcs;
        lap := lap + 1;
      }
    }

    method Stamp(data: nat)
      requires Valid() && |sent| - |got| < RING_TRBS
      modifies this`enqueue, this`sent, ring
      ensures Running() && enqueue == old(enqueue) + 1 && sent == old(sent) + [data]
    {
      ring[enqueue] := Trb(data, pcs);
      sent := sent + [data];
      enqueue := enqueue + 1;
    }

    /** `poll_event`: the next event exactly when there is one. */
    method PollEvent() returns (r: Option<nat>)
      requires Valid()
      modifies this`dequeue, this`ccs, this`seenLap, this`got
      ensures Valid()
      ensures r.Some? <==> |old(got)| < |sent|
      ensures r.Some? ==> got == old(got) + [r.value] && r.value == sent[|old(got)|]
      ensures r.None? ==> got == old(got)
    {
      r := Take();
      if dequeue >= RING_TRBS {
        dequeue := 0;
        ccs := !ccs;
        seenLap := seenLap + 1;
      }
    }

    /** The event at the dequeue position, if its cycle bit says it is new. */
    method Take() returns (r: Option<nat>)
      requires Valid()
      modifies this`dequeue, this`got
      ensures Running() && (dequeue == RING_TRBS ==> seenLap + 1 == lap)
      ensures r.Some? <==> |old(got)| < |sent|
      ensures r.Some? ==> got == old(got) + [r.value] && r.value == sent[|old(got)|] && dequeue == old(dequeue) + 1
      ensures r.None? ==> got == old(got) && dequeue == old(dequeue)
    {
      var t := ring[dequeue];
      if t.cycle != ccs {
        return None;
      }
      dequeue := dequeue + 1;
      got := got + [t.data];
      return Some(t.data);
    }
  }
}
