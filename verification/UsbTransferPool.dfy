/** The transfer pool as the driver holds it: a fixed array of slots updated in place by the handlers. */
module UsbTransferPool {
  import opened Basics
  import opened M = UsbTransfer

  class TransferPool {
    const slots: array<Slot>
    ghost var requests: seq<Event>
    var calls: seq<Call>
    var accepted: nat

    ghost predicate Valid()
      reads this
    {
      accepted == |requests|
    }

    ghost function View(): Pool
      reads this, slots
    {
      Pool(slots[..], requests, calls)
    }

    /** The slot initialisation of usb_device_composite_init. */
    constructor ()
      ensures Valid() && fresh(slots) && View() == Initial
    {
      slots := new Slot[SLOTS](_ => Fresh);
      requests, calls, accepted := [], [], 0;
      new;
      assert slots[..] == Initial.slots;
    }

    /** usb_ep_get_transfer. */
    method EpGetTransfer(ep: nat) returns (r: Option<nat>)
      ensures r == GetTransfer(slots[..], ep)
    {
      var i := 0;
      while i < slots.Length
        invariant 0 <= i <= slots.Length
        invariant GetTransfer(slots[..], ep) == GetTransferFrom(slots[..], ep, i)
      {
        if slots[i].ep == ep { return Some(i); }
        i := i + 1;
      }
      return None;
    }

    /** usb_transfer: take the first slot whose semaphore is available. */
    method Transfer(e: Event) returns (started: bool)
      requires Valid() && e.Start?
      modifies this, slots
      ensures Valid() && View() == StartTransfer(old(View()), e)
      ensures started <==> |requests| == |old(requests)| + 1
    {
      hide NoZlp;
      var i := 0;
      while i < slots.Length && !slots[i].free
        invariant 0 <= i <= slots.Length
        invariant FirstFree(slots[..]) == FirstFreeFrom(slots[..], i)
      {
        i := i + 1;
      }
      if i == slots.Length { return false; }
      var s := slots[i];
      if s.status == Busy { return false; }
      slots[i] := Slot(e.ep, Busy, e.data, 0, |e.data|, 0, e.cb, e.write, NoZlp(e),
                       false, s.queued || e.write, accepted, Silent);
      requests, accepted := requests + [e], accepted + 1;
      return true;
    }

    /** usb_transfer_work up to the label done. */
    method PushSlot(i: nat, hal: Hal, mps: nat)
      requires Valid() && i < slots.Length
      modifies slots
      ensures slots[..] == old(slots[..])[i := Push(old(slots[i]), hal, mps)]
    {
      hide Short;
      var s := slots[i];
      if s.status != Busy { return; }
      if s.write && s.bsize == 0 {
        if !s.noZlp { s := s.(wire := s.wire.(zlp := true)); }
        slots[i] := s.(status := Ok);
        return;
      }
      if hal.HalError? {
        slots[i] := s.(status := Invalid, wire := s.wire.(failed := true));
        return;
      }
      var bytes := Min(hal.bytes, s.bsize);
      if s.write && s.at + bytes <= |s.data| {
        s := s.(wire := s.wire.(sent := s.wire.sent + s.data[s.at..s.at + bytes]));
      }
      s := s.(at := s.at + bytes, bsize := s.bsize - bytes, tsize := s.tsize + bytes);
      if !s.write {
        s := s.(wire := s.wire.(packets := s.wire.packets + [Received(bytes, mps)]));
        if Short(bytes, mps) || s.bsize == 0 { s := s.(status := Ok); }
      }
      slots[i] := s;
    }

    /** usb_transfer_work on slot `i`; a finished transfer is reported here, or later when in an interrupt. */
    method TransferWork(i: nat, isr: bool, hal: Hal, mps: nat)
      requires Valid() && i < slots.Length
      modifies this, slots
      ensures Valid() && View() == RunWork(old(View()), i, isr, hal, mps)
    {
      PushSlot(i, hal, mps);
      var s := slots[i];
      if s.status != Busy && s.cb {
        if isr {
          slots[i] := s.(queued := true);
        } else {
          slots[i] := s.(cb := false, free := true);
          calls := calls + [Call(s.serial, s)];
        }
      }
    }

    /** One item of the work queue, if slot `i` has it queued. */
    method RunWorkItem(e: Event)
      requires Valid() && e.Work?
      modifies this, slots
      ensures Valid() && View() == WorkItem(old(View()), e)
    {
      hide RunWork;
      if e.i < slots.Length && slots[e.i].queued {
        slots[e.i] := slots[e.i].(queued := false);
        TransferWork(e.i, false, e.hal, e.mps);
      }
    }

    /** usb_transfer_ep_callback. */
    method EpCallback(e: Event)
      requires Valid() && e.Endpoint?
      modifies this, slots
      ensures Valid() && View() == EndpointCallback(old(View()), e)
    {
      hide RunWork;
      var trans := EpGetTransfer(e.ep);
      if e.dataEvent && trans.Some? {
        if !e.isr || e.out {
          TransferWork(trans.value, e.isr, e.hal, e.mps);
        } else {
          slots[trans.value] := slots[trans.value].(queued := true);
        }
      }
    }

    /** usb_cancel_transfer. */
    method CancelOn(ep: nat)
      requires Valid()
      modifies this, slots
      ensures Valid() && View() == CancelTransfer(old(View()), ep)
    {
      var trans := EpGetTransfer(ep);
      if trans.Some? && slots[trans.value].status == Busy {
        slots[trans.value] := slots[trans.value].(status := Canceled, queued := true);
      }
    }

    /** Any interleaving of the handlers, as one run of the state machine. */
    method Drive(es: seq<Event>)
      requires Valid()
      modifies this, slots
      ensures Valid() && View() == Run(old(View()), es)
    {
      hide StartTransfer, WorkItem, EndpointCallback, CancelTransfer;
      for k := 0 to |es|
        invariant Valid() && Run(View(), es[k..]) == Run(old(View()), es)
      {
        var e := es[k];
        match e {
          case Start(_, _, _, _, _, _) => var _ := Transfer(e);
          case Work(_, _, _) => RunWorkItem(e);
          case Endpoint(_, _, _, _, _, _) => EpCallback(e);
          case Cancel(ep) => CancelOn(ep);
        }
        assert es[k..][1..] == es[k + 1..];
      }
    }
  }
}
