/** The descriptor rings of kernel/e1000.c. The adapter is the environment: its
    steps may come between any two steps of the driver. A ring position is the
    number of a frame modulo the ring size, so the invariants speak of numbers. */
module E1000 {
  import opened Bits
  import opened DivFacts

  const RING := 16

  datatype Frame = Frame(data: seq<byte>, endOfPacket: bool)

  function Deliverable(f: Frame): bool {
    |f.data| > 0 && f.endOfPacket
  }

  /** The frames the network stack should see, in order. */
  function Accepted(fs: seq<Frame>): (r: seq<Frame>)
    ensures forall f :: f in r ==> f in fs && Deliverable(f)
  {
    if fs == [] then []
    else Accepted(fs[..|fs| - 1]) + if Deliverable(fs[|fs| - 1]) then [fs[|fs| - 1]] else []
  }

  lemma {:induction false} AcceptedNext(fs: seq<Frame>, k: nat)
    requires k < |fs|
    ensures Accepted(fs[..k + 1]) == Accepted(fs[..k]) + if Deliverable(fs[k]) then [fs[k]] else []
  {
    assert fs[..k + 1][..k] == fs[..k];
  }

  /** The slot of the `k`-th frame. */
  function Slot(k: nat): (s: nat)
    ensures s < RING
  {
    Rem(k, RING)
  }

  lemma {:induction false} SlotApart(j: nat, k: nat)
    requires j < k < j + RING
    ensures Slot(j) != Slot(k)
  {
    RemApart(j, k, RING);
  }

  /** The done bit is set exactly on the slots of the frames from `cleared` on, and
      those slots hold these frames. */
  ghost predicate SlotsOk(done: seq<bool>, slots: seq<Frame>, arrived: seq<Frame>, cleared: nat) {
    && |done| == |slots| == RING && cleared <= |arrived| < cleared + RING
    && (forall k {:trigger arrived[k]} :: cleared <= k < |arrived| ==> done[Slot(k)] && slots[Slot(k)] == arrived[k])
    && (forall k {:trigger Slot(k)} :: |arrived| <= k < cleared + RING ==> !done[Slot(k)])
  }

  lemma {:induction false} Filled(done: seq<bool>, slots: seq<Frame>, arrived: seq<Frame>, cleared: nat, f: Frame)
    requires SlotsOk(done, slots, arrived, cleared) && |arrived| + 1 < cleared + RING
    ensures SlotsOk(done[Slot(|arrived|) := true], slots[Slot(|arrived|) := f], arrived + [f], cleared)
    ensures !done[Slot(|arrived|)]
  {
    hide Slot;
    var n := |arrived|;
    assert !done[Slot(n)];
    var done', slots', arrived' := done[Slot(n) := true], slots[Slot(n) := f], arrived + [f];
    forall k: nat | cleared <= k < |arrived'| ensures done'[Slot(k)] && slots'[Slot(k)] == arrived'[k] {
      if k < n {
        SlotApart(k, n);
        assert arrived[k] == slots[Slot(k)];
      }
    }
    forall k: nat | n + 1 <= k < cleared + RING ensures !done'[Slot(k)] {
      SlotApart(n, k);
      assert !done[Slot(k)];
    }
  }

  lemma {:induction false} Emptied(done: seq<bool>, slots: seq<Frame>, arrived: seq<Frame>, cleared: nat)
    requires SlotsOk(done, slots, arrived, cleared) && cleared < |arrived|
    ensures SlotsOk(done[Slot(cleared) := false], slots, arrived, cleared + 1)
  {
    hide Slot;
    SlotAround(cleared);
    var done' := done[Slot(cleared) := false];
    forall k: nat | cleared < k < |arrived| ensures done'[Slot(k)] && slots[Slot(k)] == arrived[k] {
      SlotApart(cleared, k);
      assert arrived[k] == slots[Slot(k)];
    }
    forall k: nat | |arrived| <= k < cleared + 1 + RING ensures !done'[Slot(k)] {
      if k < cleared + RING {
        SlotApart(cleared, k);
        assert !done[Slot(k)];
      }
    }
  }

  lemma {:induction false} SlotFree(done: seq<bool>, slots: seq<Frame>, arrived: seq<Frame>, cleared: nat)
    requires SlotsOk(done, slots, arrived, cleared)
    ensures |done| == |slots| == RING && cleared <= |arrived| < cleared + RING && !done[Slot(|arrived|)]
  {
  }

  lemma {:induction false} SlotHolds(done: seq<bool>, slots: seq<Frame>, arrived: seq<Frame>, cleared: nat)
    requires SlotsOk(done, slots, arrived, cleared) && cleared < |arrived|
    ensures done[Slot(cleared)] && slots[Slot(cleared)] == arrived[cleared]
  {
    assert arrived[cleared] == slots[Slot(cleared)];
  }

  lemma {:induction false} SlotAround(k: nat)
    ensures Slot(k + RING) == Slot(k)
    ensures Slot(k + RING - 1) < RING && (Slot(k + RING - 1) + 1) % RING == Slot(k)
    ensures (Slot(k) + 1) % RING == Slot(k + 1)
  {
    hide Rem, Quot;
    RemLap(k, RING);
    RemStep(k, RING);
    RemStep(k + RING - 1, RING);
  }

  lemma {:induction false} SlotEqual(j: nat, k: nat)
    requires j <= k < j + RING
    ensures Slot(j) == Slot(k) <==> j == k
  {
    RemEqual(j, k, RING);
  }

  /** Where `e1000_poll` is: about to look, about to deliver, about to reset the
      status of the slot, or about to hand the slot back. */
  datatype Pc = Look | Deliver | Reset | GiveBack

  class RxRing {
    const done: array<bool>
    const slots: array<Frame>
    /** `g_e1000_rx_tail`, and the adapter's head and tail registers. */
    var tail: nat
    var rdh: nat
    var rdt: nat
    var pc: Pc
    var delivered: seq<Frame>
    /** Every frame the adapter has stored, and how many slots have been handed back. */
    ghost var arrived: seq<Frame>
    ghost var returned: nat

    /** How many slots no longer carry the done bit. */
    ghost function Cleared(): nat
      reads this
    {
      if pc == GiveBack then returned + 1 else returned
    }

    ghost predicate Valid()
      reads this, done, slots
    {
      && done.Length == slots.Length == RING
      && returned <= |arrived| < returned + RING
      && (pc != Look ==> returned < |arrived|)
      && tail == rdt == Slot(returned + RING - 1) && rdh == Slot(|arrived|)
      && SlotsOk(done[..], slots[..], arrived, Cleared())
      && delivered == Accepted(arrived[..if pc == Look || pc == Deliver then returned else returned + 1])
    }

    /** The slot `e1000_poll` looks at. */
    function Next(): nat
      reads this
    {
      (tail + 1) % RING
    }

    constructor ()
      ensures Valid() && arrived == [] && delivered == [] && pc == Look
      ensures rdh == 0 && rdt == 15
    {
      done := new bool[RING](_ => false);
      slots := new Frame[RING](_ => Frame([], false));
      tail, rdh, rdt, pc := RING - 1, 0, RING - 1, Look;
      delivered, arrived, returned := [], [], 0;
    }

    /** The adapter stores a frame, or drops it when head has met tail. It writes
        neither the slot the driver reads nor one that still waits to be read. */
    method Receive(f: Frame) returns (stored: bool)
      requires Valid()
      modifies this`rdh, this`arrived, done, slots
      ensures Valid()
      ensures stored <==> old(rdh) != rdt
      ensures stored <==> |old(arrived)| < returned + 15
      ensures arrived == if stored then old(arrived) + [f] else old(arrived)
      ensures forall s :: 0 <= s < RING && (s != old(rdh) || !stored) ==>
        done[s] == old(done[s]) && slots[s] == old(slots[s])
      ensures stored ==> old(!done[rdh])
      ensures stored && pc != Look ==> old(rdh) != Next()
    {
      hide Slot, SlotsOk, Accepted;
      SlotEqual(|arrived|, returned + RING - 1);
      if rdh == rdt {
        return false;
      }
      SlotAround(|arrived|);
      SlotAround(returned);
      SlotEqual(returned, |arrived|);
      Filled(done[..], slots[..], arrived, Cleared(), f);
      ghost var was := arrived;
      done[rdh], slots[rdh] := true, f;
      rdh := (rdh + 1) % RING;
      arrived := arrived + [f];
      assert arrived[..returned] == was[..returned];
      if pc != Look {
        assert arrived[..returned + 1] == was[..returned + 1];
      }
      return true;
    }

    /** The done bit of the next slot is set exactly when a stored frame waits there. */
    method Poll() returns (found: bool)
      requires Valid() && pc == Look
      modifies this`pc
      ensures Valid() && found == (pc == Deliver) && (pc == Look || pc == Deliver)
      ensures found <==> returned < |arrived|
    {
      hide Slot, Accepted;
      SlotAround(returned);
      assert returned < |arrived| ==> arrived[returned] == slots[Slot(returned)];
      found := done[Next()];
      if found {
        pc := Deliver;
      }
    }

    /** The frame is passed on if it is complete and not empty. */
    method Pass()
      requires Valid() && pc == Deliver
      modifies this`pc, this`delivered
      ensures Valid() && pc == Reset
      ensures returned < |arrived|
      ensures delivered == old(delivered) + if Deliverable(arrived[returned]) then [arrived[returned]] else []
    {
      hide Slot, Accepted;
      SlotAround(returned);
      var next := Next();
      AcceptedNext(arrived, returned);
      if |slots[next].data| > 0 && slots[next].endOfPacket {
        delivered := delivered + [slots[next]];
      }
      pc := Reset;
    }

    method ResetStatus()
      requires Valid() && pc == Reset
      modifies this`pc, done
      ensures Valid() && pc == GiveBack && !done[Next()]
    {
      hide Slot, Accepted, SlotsOk;
      SlotAround(returned);
      Emptied(done[..], slots[..], arrived, returned);
      var next := Next();
      done[next] := false;
      pc := GiveBack;
    }

    method Return()
      requires Valid() && pc == GiveBack
      modifies this`pc, this`tail, this`rdt, this`returned
      ensures Valid() && pc == Look && returned == old(returned) + 1 && rdt == old(Next())
    {
      hide Slot, Accepted, SlotsOk;
      SlotAround(returned);
      tail := Next();
      rdt := tail;
      pc := Look;
      returned := returned + 1;
    }
  }

  /** The transmit ring. `pending` is the complement of the done bit. */
  class TxRing {
    const pending: array<bool>
    const slots: array<Frame>
    /** `g_e1000_tx_tail`, and the adapter's head and tail registers. */
    var tail: nat
    var tdh: nat
    var tdt: nat
    /** Frames on the wire. */
    var wire: seq<Frame>
    ghost var sent: seq<Frame>

    ghost predicate Valid()
      reads this, pending, slots
    {
      && pending.Length == slots.Length == RING
      && wire <= sent
      && tail == tdt == Slot(|sent|) && tdh == Slot(|wire|)
      && SlotsOk(pending[..], slots[..], sent, |wire|)
    }

    constructor ()
      ensures Valid() && sent == [] && wire == []
    {
      pending := new bool[RING](_ => false);
      slots := new Frame[RING](_ => Frame([], false));
      tail, tdh, tdt := 0, 0, 0;
      wire, sent := [], [];
    }

    /** `e1000_send`: the slot is free, so nothing still owned by the adapter is
        overwritten. The driver does not count what is outstanding, and a sixteenth
        frame makes the full ring look like an empty one to the adapter. */
    method Send(f: Frame) returns (free: bool)
      requires Valid()
      modifies this`tail, this`tdt, this`sent, pending, slots
      ensures free && sent == old(sent) + [f]
      ensures |old(sent)| - |wire| < 15 ==> Valid()
      ensures |old(sent)| - |wire| >= 15 ==> tdh == tdt && |sent| - |wire| == 16
    {
      hide Slot, SlotsOk;
      SlotFree(pending[..], slots[..], sent, |wire|);
      free := !pending[tail];
      if |sent| + 1 < |wire| + RING {
        Filled(pending[..], slots[..], sent, |wire|, f);
      }
      SlotAround(|sent|);
      SlotAround(|wire|);
      if free {
        slots[tail], pending[tail] := f, true;
        tail := (tail + 1) % RING;
        tdt := tail;
        sent := sent + [f];
      }
    }

    /** The adapter sends the oldest frame of the ring, if head has not met tail. */
    method Transmit() returns (any: bool)
      requires Valid()
      modifies this`tdh, this`wire, pending
      ensures Valid() && (any <==> |old(wire)| < |sent|)
      ensures wire == if any then old(wire) + [sent[|old(wire)|]] else old(wire)
    {
      hide Slot, SlotsOk;
      SlotFree(pending[..], slots[..], sent, |wire|);
      SlotEqual(|wire|, |sent|);
      if tdh == tdt {
        return false;
      }
      SlotHolds(pending[..], slots[..], sent, |wire|);
      Emptied(pending[..], slots[..], sent, |wire|);
      SlotAround(|wire|);
      wire := wire + [slots[tdh]];
      pending[tdh] := false;
      tdh := (tdh + 1) % RING;
      return true;
    }
  }

  /** One step of the adapter or of the driver. */
  datatype Step = Arrive(f: Frame) | Driver

  /** Over every interleaving, what has been delivered is what arrived, in order and
      once each, up to the slots not handled yet. */
  method Run(ring: RxRing, steps: seq<Step>)
    requires ring.Valid()
    modifies ring, ring.done, ring.slots
    ensures ring.Valid() && old(ring.arrived) <= ring.arrived && old(ring.delivered) <= ring.delivered
    ensures ring.pc == Look ==> ring.delivered == Accepted(ring.arrived[..ring.returned])
    ensures ring.pc == Look && ring.returned == |ring.arrived| ==> ring.delivered == Accepted(ring.arrived)
  {
    var i := 0;
    while i < |steps|
      invariant ring.Valid() && old(ring.arrived) <= ring.arrived && old(ring.delivered) <= ring.delivered
    {
      match steps[i] {
        case Arrive(f) => var _ := ring.Receive(f);
        case Driver =>
          match ring.pc {
            case Look => var _ := ring.Poll();
            case Deliver => ring.Pass();
            case Reset => ring.ResetStatus();
            case GiveBack => ring.Return();
          }
      }
      i := i + 1;
    }
    assert ring.returned == |ring.arrived| ==> ring.arrived[..ring.returned] == ring.arrived;
  }
}
