/**
  The pool of asynchronous transfer slots of the USB device core.  Threads start
  and cancel transfers, the work queue and the endpoint interrupt push them on;
  the handlers are the steps of a state machine and every order of steps is a
  run.  What the controller does in a step (bytes moved, an error) comes with
  the event.
*/
module UsbTransfer {
  import opened Basics

  const SLOTS := 4

  datatype Status = Ok | Busy | Invalid | Canceled

  /**
    One usb_transfer_data.  `at` is the buffer pointer, `free` the semaphore,
    `queued` says that the slot's work item sits in the work queue.  `serial`
    numbers the transfers in the order they were accepted; `wire` records what
    the endpoint saw of the current transfer.
  */
  datatype Slot = Slot(
    ep: nat, status: Status, data: seq<byte>, at: nat, bsize: nat, tsize: nat,
    cb: bool, write: bool, noZlp: bool, free: bool, queued: bool, serial: nat, wire: Wire)

  /** The bytes and the zero-length packet sent, the packets received, and whether the controller reported an error. */
  datatype Wire = Wire(sent: seq<byte>, zlp: bool, packets: seq<Received>, failed: bool)

  const Silent := Wire([], false, [], false)

  /** A packet read, and the packet size of its endpoint. */
  datatype Received = Received(bytes: nat, mps: nat)

  const Fresh := Slot(0, Ok, [], 0, 0, 0, false, false, false, true, false, 0, Silent)

  /** One completion callback, with the transfer it reports. */
  datatype Call = Call(serial: nat, slot: Slot)

  /** The slots, the start requests accepted so far and the callbacks made so far. */
  datatype Pool = Pool(slots: seq<Slot>, requests: seq<Event>, calls: seq<Call>)

  const Initial := Pool([Fresh, Fresh, Fresh, Fresh], [], [])

  /** What the controller answers to the write or read a step makes. */
  datatype Hal = HalError | Moved(bytes: nat)

  datatype Event =
    | Start(ep: nat, data: seq<byte>, write: bool, noZlp: bool, cb: bool, mps: nat)
    | Work(i: nat, hal: Hal, mps: nat)
    | Endpoint(ep: nat, dataEvent: bool, out: bool, isr: bool, hal: Hal, mps: nat)
    | Cancel(ep: nat)

  // ----- the handlers -----

  function FirstFree(slots: seq<Slot>): (r: Option<nat>)
    ensures match r
      case Some(i) => i < |slots| && slots[i].free && forall k :: 0 <= k < i ==> !slots[k].free
      case None => forall k :: 0 <= k < |slots| ==> !slots[k].free
  {
    FirstFreeFrom(slots, 0)
  }

  function FirstFreeFrom(slots: seq<Slot>, n: nat): (r: Option<nat>)
    requires n <= |slots|
    ensures match r
      case Some(i) => n <= i < |slots| && slots[i].free && forall k :: n <= k < i ==> !slots[k].free
      case None => forall k :: n <= k < |slots| ==> !slots[k].free
    decreases |slots| - n
  {
    if n == |slots| then None else if slots[n].free then Some(n) else FirstFreeFrom(slots, n + 1)
  }

  /** usb_ep_get_transfer: the first slot whose endpoint field matches, in use or not. */
  function GetTransfer(slots: seq<Slot>, ep: nat): (r: Option<nat>)
    ensures match r
      case Some(i) => i < |slots| && slots[i].ep == ep && forall k :: 0 <= k < i ==> slots[k].ep != ep
      case None => forall k :: 0 <= k < |slots| ==> slots[k].ep != ep
  {
    GetTransferFrom(slots, ep, 0)
  }

  function GetTransferFrom(slots: seq<Slot>, ep: nat, n: nat): (r: Option<nat>)
    requires n <= |slots|
    ensures match r
      case Some(i) => n <= i < |slots| && slots[i].ep == ep && forall k :: n <= k < i ==> slots[k].ep != ep
      case None => forall k :: n <= k < |slots| ==> slots[k].ep != ep
    decreases |slots| - n
  {
    if n == |slots| then None else if slots[n].ep == ep then Some(n) else GetTransferFrom(slots, ep, n + 1)
  }

  /** Moving `n` bytes: the driver never takes more than it was offered. */
  function Advance(s: Slot, n: nat): Slot {
    var k := Min(n, s.bsize);
    s.(at := s.at + k, bsize := s.bsize - k, tsize := s.tsize + k)
  }

  /** A packet that ends a read: empty, or not a whole number of packets. */
  predicate Short(n: nat, mps: nat) {
    n == 0 || mps == 0 || n % mps != 0
  }

  function PushWrite(s: Slot, hal: Hal): Slot {
    if s.bsize == 0 then s.(status := Ok, wire := s.wire.(zlp := s.wire.zlp || !s.noZlp))
    else match hal
      case HalError => s.(status := Invalid, wire := s.wire.(failed := true))
      case Moved(n) =>
        var s1 := Advance(s, n);
        if s1.at <= |s.data| then s1.(wire := s.wire.(sent := s.wire.sent + s.data[s.at..s1.at])) else s1
  }

  function PushRead(s: Slot, hal: Hal, mps: nat): Slot {
    match hal
    case HalError => s.(status := Invalid, wire := s.wire.(failed := true))
    case Moved(n) =>
      var moved := Min(n, s.bsize);
      var s1 := Advance(s, n).(wire := s.wire.(packets := s.wire.packets + [Received(moved, mps)]));
      if Short(moved, mps) || s1.bsize == 0 then s1.(status := Ok) else s1
  }

  /** usb_transfer_work up to the label done. */
  function Push(s: Slot, hal: Hal, mps: nat): Slot {
    if s.status != Busy then s else if s.write then PushWrite(s, hal) else PushRead(s, hal, mps)
  }

  /** usb_transfer_work on slot `i`, in interrupt or thread context. */
  function RunWork(p: Pool, i: nat, isr: bool, hal: Hal, mps: nat): (p': Pool)
    requires i < |p.slots|
    ensures |p'.slots| == |p.slots|
  {
    var s := Push(p.slots[i], hal, mps);
    if s.status == Busy || !s.cb then p.(slots := p.slots[i := s])
    else if isr then p.(slots := p.slots[i := s.(queued := true)])
    else p.(slots := p.slots[i := s.(cb := false, free := true)], calls := p.calls + [Call(s.serial, s)])
  }

  /** No zero-length packet is wanted, or the last packet will be a short one anyway. */
  predicate NoZlp(e: Event)
    requires e.Start?
  {
    e.noZlp || (e.mps != 0 && |e.data| % e.mps != 0)
  }

  /** usb_transfer. */
  function StartTransfer(p: Pool, e: Event): (p': Pool)
    requires e.Start?
    ensures |p'.slots| == |p.slots|
  {
    match FirstFree(p.slots)
    case None => p
    case Some(i) =>
      var s := p.slots[i];
      if s.status == Busy then p
      else
        var s1 := Slot(e.ep, Busy, e.data, 0, |e.data|, 0, e.cb, e.write, NoZlp(e),
                       false, s.queued || e.write, |p.requests|, Silent);
        p.(slots := p.slots[i := s1], requests := p.requests + [e])
  }

  /** usb_cancel_transfer. */
  function CancelTransfer(p: Pool, ep: nat): (p': Pool)
    ensures |p'.slots| == |p.slots|
  {
    match GetTransfer(p.slots, ep)
    case None => p
    case Some(i) =>
      if p.slots[i].status != Busy then p
      else p.(slots := p.slots[i := p.slots[i].(status := Canceled, queued := true)])
  }

  /** usb_transfer_ep_callback. */
  function EndpointCallback(p: Pool, e: Event): (p': Pool)
    requires e.Endpoint?
    ensures |p'.slots| == |p.slots|
  {
    if !e.dataEvent then p
    else match GetTransfer(p.slots, e.ep)
      case None => p
      case Some(i) =>
        if !e.isr || e.out then RunWork(p, i, e.isr, e.hal, e.mps)
        else p.(slots := p.slots[i := p.slots[i].(queued := true)])
  }

  /** The work queue takes a queued item off and runs it in thread context. */
  function WorkItem(p: Pool, e: Event): (p': Pool)
    requires e.Work?
    ensures |p'.slots| == |p.slots|
  {
    if e.i < |p.slots| && p.slots[e.i].queued then
      RunWork(p.(slots := p.slots[e.i := p.slots[e.i].(queued := false)]), e.i, false, e.hal, e.mps)
    else p
  }

  function Step(p: Pool, e: Event): (p': Pool)
    ensures |p'.slots| == |p.slots|
  {
    match e
    case Start(_, _, _, _, _, _) => StartTransfer(p, e)
    case Work(_, _, _) => WorkItem(p, e)
    case Endpoint(_, _, _, _, _, _) => EndpointCallback(p, e)
    case Cancel(ep) => CancelTransfer(p, ep)
  }

  function Run(p: Pool, es: seq<Event>): Pool
    decreases |es|
  {
    if es == [] then p else Run(Step(p, es[0]), es[1..])
  }

  // ----- what a caller has to respect -----

  ghost predicate Outstanding(p: Pool, ep: nat) {
    exists i :: 0 <= i < |p.slots| && !p.slots[i].free && p.slots[i].ep == ep
  }

  /** A start passes a callback and its endpoint has no transfer that was not called back yet. */
  ghost predicate Allowed(p: Pool, e: Event) {
    e.Start? ==> e.cb && !Outstanding(p, e.ep)
  }

  ghost predicate AllAllowed(p: Pool, es: seq<Event>)
    decreases |es|
  {
    es == [] || (Allowed(p, es[0]) && AllAllowed(Step(p, es[0]), es[1..]))
  }

  // ----- the invariant -----

  /** Byte accounting of a transfer, from its start to its callback. */
  ghost predicate Accounted(s: Slot) {
    && s.tsize + s.bsize == |s.data| && s.at == s.tsize
    && (s.write ==> s.wire.sent == s.data[..s.tsize])
    && (s.wire.zlp ==> s.write && !s.noZlp)
    && (s.write && s.status == Ok ==> s.tsize == |s.data| && s.wire.zlp == !s.noZlp)
    && (!s.write ==> Total(s.wire.packets) == s.tsize && ReadEnds(s))
  }

  function Total(ps: seq<Received>): nat { if ps == [] then 0 else Total(ps[..|ps| - 1]) + ps[|ps| - 1].bytes }

  /**
    A read goes on through full packets as long as there is room, and is complete
    only with a full buffer or after a packet that was empty or not a whole
    number of packets.
  */
  ghost predicate ReadEnds(s: Slot) {
    && (s.status == Busy ==> AllFull(s.wire.packets) && (s.wire.packets == [] || 0 < s.bsize) && !s.wire.failed)
    && (s.status == Ok ==> s.bsize == 0 || !AllFull(s.wire.packets))
    && (s.status == Invalid ==> s.wire.failed)
  }

  predicate AllFull(ps: seq<Received>) { forall i :: 0 <= i < |ps| ==> !Short(ps[i].bytes, ps[i].mps) }

  /** The slot carries the transfer that was asked for. */
  ghost predicate Serves(s: Slot, requests: seq<Event>) {
    && s.serial < |requests|
    && var e := requests[s.serial];
       e.Start? && s.ep == e.ep && s.data == e.data && s.write == e.write && s.noZlp == NoZlp(e)
  }

  ghost predicate SlotOk(s: Slot, requests: seq<Event>) {
    && (s.free <==> !s.cb)
    && (s.status == Busy ==> !s.free)
    && (!s.free && s.status != Busy ==> s.queued)
    && (!s.free ==> Accounted(s) && Serves(s, requests))
  }

  /** Every transfer that was not called back is the one its endpoint number leads to. */
  ghost predicate Reachable(p: Pool) {
    forall j :: 0 <= j < |p.slots| && !p.slots[j].free ==> GetTransfer(p.slots, p.slots[j].ep) == Some(j)
  }

  /** No transfer is in two slots, or in a slot and already called back, or called back twice. */
  ghost predicate Once(p: Pool) {
    && (forall i, j :: 0 <= i < j < |p.slots| && !p.slots[i].free && !p.slots[j].free ==>
          p.slots[i].serial != p.slots[j].serial)
    && (forall i, k :: 0 <= i < |p.slots| && !p.slots[i].free && 0 <= k < |p.calls| ==>
          p.slots[i].serial != p.calls[k].serial)
    && (forall k, l :: 0 <= k < l < |p.calls| ==> p.calls[k].serial != p.calls[l].serial)
  }

  ghost predicate InSlot(slots: seq<Slot>, n: nat) {
    exists i :: 0 <= i < |slots| && !slots[i].free && slots[i].serial == n
  }

  ghost predicate CalledBack(calls: seq<Call>, n: nat) {
    exists k :: 0 <= k < |calls| && calls[k].serial == n
  }

  /** No transfer is lost: each accepted one waits in a slot or has been called back. */
  ghost predicate Kept(p: Pool) {
    forall n: nat :: n < |p.requests| ==> InSlot(p.slots, n) || CalledBack(p.calls, n)
  }

  ghost predicate CallsOk(p: Pool) {
    forall k :: 0 <= k < |p.calls| ==>
      && p.calls[k].serial == p.calls[k].slot.serial && Serves(p.calls[k].slot, p.requests)
      && p.calls[k].slot.status != Busy && Accounted(p.calls[k].slot)
  }

  ghost predicate Inv(p: Pool) {
    && |p.slots| == SLOTS
    && (forall i :: 0 <= i < |p.slots| ==> SlotOk(p.slots[i], p.requests))
    && Reachable(p) && Once(p) && Kept(p) && CallsOk(p)
  }

  // ----- every step keeps it -----

  predicate SameTransfer(s: Slot, s': Slot) {
    && s'.ep == s.ep && s'.data == s.data && s'.write == s.write && s'.noZlp == s.noZlp && s'.serial == s.serial
    && s'.cb == s.cb && s'.free == s.free && s'.queued == s.queued
  }

  lemma PushWriteKeeps(s: Slot, hal: Hal)
    requires s.write && Accounted(s)
    ensures SameTransfer(s, PushWrite(s, hal)) && Accounted(PushWrite(s, hal))
  {
    if s.bsize == 0 {
      assert s.data[..s.tsize] == s.data;
    } else if hal.Moved? {
      var s1 := Advance(s, hal.bytes);
      assert s.data[..s1.at] == s.data[..s.at] + s.data[s.at..s1.at];
    }
  }

  lemma PushReadKeeps(s: Slot, hal: Hal, mps: nat)
    requires !s.write && Accounted(s)
    ensures SameTransfer(s, PushRead(s, hal, mps)) && Accounted(PushRead(s, hal, mps))
  {
    hide Short, Total, AllFull;
    match hal {
      case HalError =>
      case Moved(n) =>
        var p := Received(Min(n, s.bsize), mps);
        OneMore(s.wire.packets, p);
        assert PushRead(s, hal, mps).wire.packets == s.wire.packets + [p];
    }
  }

  lemma OneMore(ps: seq<Received>, p: Received)
    ensures Total(ps + [p]) == Total(ps) + p.bytes
    ensures AllFull(ps + [p]) <==> AllFull(ps) && !Short(p.bytes, p.mps)
  {
    hide Short;
    var qs := ps + [p];
    assert qs[..|ps|] == ps;
    assert AllFull(qs) ==> !Short(qs[|ps|].bytes, qs[|ps|].mps);
    assert forall i :: 0 <= i < |ps| ==> qs[i] == ps[i];
  }

  lemma SameEndpoints(a: seq<Slot>, b: seq<Slot>, ep: nat)
    requires |a| == |b| && forall j :: 0 <= j < |a| ==> a[j].ep == b[j].ep
    ensures GetTransfer(a, ep) == GetTransfer(b, ep)
  {
    hide GetTransferFrom;
    match GetTransfer(a, ep)
    case Some(i) => assert b[i].ep == ep;
    case None =>
  }

  lemma SameEndpointsReachable(p: Pool, p': Pool)
    requires Reachable(p) && |p.slots| == |p'.slots|
    requires forall j :: 0 <= j < |p.slots| ==>
      p.slots[j].ep == p'.slots[j].ep && (p.slots[j].free ==> p'.slots[j].free)
    ensures Reachable(p')
  {
    hide GetTransfer;
    forall j | 0 <= j < |p'.slots| && !p'.slots[j].free
      ensures GetTransfer(p'.slots, p'.slots[j].ep) == Some(j)
    {
      SameEndpoints(p.slots, p'.slots, p.slots[j].ep);
    }
  }

  /** Nothing is lost when each taken slot keeps its transfer or has it called back. */
  lemma StillKept(p: Pool, p': Pool)
    requires Kept(p) && p'.requests == p.requests && p.calls <= p'.calls && |p.slots| == |p'.slots|
    requires forall j :: 0 <= j < |p.slots| && !p.slots[j].free ==>
      (!p'.slots[j].free && p'.slots[j].serial == p.slots[j].serial) || CalledBack(p'.calls, p.slots[j].serial)
    ensures Kept(p')
  {
    forall n: nat | n < |p.requests| ensures InSlot(p'.slots, n) || CalledBack(p'.calls, n) {
      assert InSlot(p.slots, n) || CalledBack(p.calls, n);
      if CalledBack(p.calls, n) {
        var k :| 0 <= k < |p.calls| && p.calls[k].serial == n;
        assert p'.calls[k] == p.calls[k];
      }
    }
  }

  /** Changing a slot in place, keeping its endpoint, its transfer and whether it is taken. */
  lemma TouchKeeps(p: Pool, i: nat, s: Slot)
    requires Inv(p) && i < |p.slots| && SlotOk(s, p.requests)
    requires s.ep == p.slots[i].ep && s.free == p.slots[i].free && s.serial == p.slots[i].serial
    ensures Inv(p.(slots := p.slots[i := s]))
  {
    hide Reachable, Kept, SlotOk, CallsOk, NoZlp;
    var p' := p.(slots := p.slots[i := s]);
    SameEndpointsReachable(p, p');
    StillKept(p, p');
    assert CallsOk(p') by { SameCalls(p, p'); }
  }

  lemma SameCalls(p: Pool, p': Pool)
    requires CallsOk(p) && p'.calls == p.calls && p.requests <= p'.requests
    ensures CallsOk(p')
  {
  }

  /** Reporting a finished transfer and giving its slot back. */
  lemma CallBackKeeps(p: Pool, i: nat, s: Slot)
    requires Inv(p) && i < |p.slots| && !p.slots[i].free && Accounted(s) && Serves(s, p.requests) && s.status != Busy
    requires s.ep == p.slots[i].ep && s.serial == p.slots[i].serial
    ensures Inv(p.(slots := p.slots[i := s.(cb := false, free := true)], calls := p.calls + [Call(s.serial, s)]))
  {
    hide Reachable, Kept, Accounted, NoZlp;
    var p' := p.(slots := p.slots[i := s.(cb := false, free := true)], calls := p.calls + [Call(s.serial, s)]);
    SameEndpointsReachable(p, p');
    assert p'.calls[|p.calls|].serial == s.serial;
    StillKept(p, p');
    assert SlotOk(p.slots[i], p.requests);
  }

  /** Work on a slot; the work queue has cleared its queued mark, an interrupt has not. */
  lemma WorkKeeps(p: Pool, i: nat, queued: bool, isr: bool, hal: Hal, mps: nat)
    requires Inv(p) && i < |p.slots| && (isr ==> queued == p.slots[i].queued)
    ensures Inv(RunWork(p.(slots := p.slots[i := p.slots[i].(queued := queued)]), i, isr, hal, mps))
  {
    var s0 := p.slots[i].(queued := queued);
    var p0, s := p.(slots := p.slots[i := s0]), Push(s0, hal, mps);
    assert SlotOk(p.slots[i], p.requests);
    if s0.status == Busy {
      if s0.write { PushWriteKeeps(s0, hal); } else { PushReadKeeps(s0, hal, mps); }
    }
    if s.status == Busy || !s.cb {
      assert p0.slots[i := s] == p.slots[i := s];
      TouchKeeps(p, i, s);
    } else if isr {
      assert p0.slots[i := s.(queued := true)] == p.slots[i := s.(queued := true)];
      TouchKeeps(p, i, s.(queued := true));
    } else {
      assert p0.slots[i := s.(cb := false, free := true)] == p.slots[i := s.(cb := false, free := true)];
      CallBackKeeps(p, i, s);
    }
  }

  lemma StartKeeps(p: Pool, e: Event)
    requires Inv(p) && e.Start? && Allowed(p, e)
    ensures Inv(StartTransfer(p, e))
  {
    hide Reachable, Accounted, NoZlp;
    var p' := StartTransfer(p, e);
    if FirstFree(p.slots).Some? {
      var i := FirstFree(p.slots).value;
      assert SlotOk(p.slots[i], p.requests);
      StartReachable(p, e);
      var s := p'.slots[i];
      assert Accounted(s) by { FreshAccounted(s); }
      assert forall j :: 0 <= j < |p.slots| && j != i ==> SlotOk(p.slots[j], p.requests) && p'.slots[j] == p.slots[j];
      var old' := p'.(requests := p.requests);
      StillKept(p, old');
      forall n: nat | n < |p'.requests| ensures InSlot(p'.slots, n) || CalledBack(p'.calls, n) {
        if n == |p.requests| {
          assert !s.free && s.serial == n;
        } else {
          assert InSlot(old'.slots, n) || CalledBack(old'.calls, n);
        }
      }
      SameCalls(p, p');
    }
  }

  lemma FreshAccounted(s: Slot)
    requires s.status == Busy && s.tsize == 0 == s.at && s.bsize == |s.data| && s.wire == Silent
    ensures Accounted(s)
  {
    assert s.data[..0] == [];
  }

  /**
    Exactly when a start keeps every outstanding transfer reachable through its
    endpoint number: the slot taken is the lowest free one, so all slots below
    it hold transfers, and only one of those on the same endpoint could hide it.
  */
  lemma StartReachable(p: Pool, e: Event)
    requires Reachable(p) && e.Start? && FirstFree(p.slots).Some? && p.slots[FirstFree(p.slots).value].status != Busy
    ensures Reachable(StartTransfer(p, e)) <==> !Outstanding(p, e.ep)
  {
    var p', i := StartTransfer(p, e), FirstFree(p.slots).value;
    assert !p'.slots[i].free && p'.slots[i].ep == e.ep;
    if Outstanding(p, e.ep) {
      var k :| 0 <= k < |p.slots| && !p.slots[k].free && p.slots[k].ep == e.ep;
      assert p'.slots[k] == p.slots[k];
      assert GetTransfer(p'.slots, p'.slots[k].ep) != Some(k) || GetTransfer(p'.slots, p'.slots[i].ep) != Some(i);
    } else {
      forall j | 0 <= j < |p'.slots| && !p'.slots[j].free
        ensures GetTransfer(p'.slots, p'.slots[j].ep) == Some(j)
      {
        if j == i {
          assert forall k :: 0 <= k < i ==> !p.slots[k].free && p'.slots[k] == p.slots[k];
        } else {
          assert p'.slots[j] == p.slots[j];
          assert GetTransfer(p.slots, p.slots[j].ep) == Some(j);
        }
      }
    }
  }

  lemma StepKeeps(p: Pool, e: Event)
    requires Inv(p) && Allowed(p, e)
    ensures Inv(Step(p, e))
  {
    match e {
      case Start(_, _, _, _, _, _) =>
        StartKeeps(p, e);
      case Work(i, hal, mps) =>
        if i < |p.slots| && p.slots[i].queued { WorkKeeps(p, i, false, false, hal, mps); }
      case Endpoint(ep, _, out, isr, hal, mps) =>
        if e.dataEvent && GetTransfer(p.slots, ep).Some? {
          var i := GetTransfer(p.slots, ep).value;
          var s := p.slots[i];
          assert SlotOk(s, p.requests);
          if !isr || out {
            assert p.slots[i := s.(queued := s.queued)] == p.slots;
            assert p.(slots := p.slots) == p;
            WorkKeeps(p, i, s.queued, isr, hal, mps);
          } else {
            TouchKeeps(p, i, s.(queued := true));
          }
        }
      case Cancel(ep) =>
        if GetTransfer(p.slots, ep).Some? {
          var i := GetTransfer(p.slots, ep).value;
          assert SlotOk(p.slots[i], p.requests);
          if p.slots[i].status == Busy { TouchKeeps(p, i, p.slots[i].(status := Canceled, queued := true)); }
        }
    }
  }

  /** In every interleaving of starts, work items, endpoint events and cancels the pool stays sound. */
  lemma {:induction false} RunKeeps(p: Pool, es: seq<Event>)
    requires Inv(p) && AllAllowed(p, es)
    ensures Inv(Run(p, es))
    decreases |es|
  {
    if es != [] {
      StepKeeps(p, es[0]);
      RunKeeps(Step(p, es[0]), es[1..]);
    }
  }

  /** Unless it was asked not to, a write ends with a zero-length packet when its last packet is a full one. */
  predicate ZlpDue(e: Event)
    requires e.Start?
  {
    !e.noZlp && (e.mps == 0 || |e.data| % e.mps == 0)
  }

  /** What callers observe: the report of callback `k`. */
  ghost predicate Reports(p: Pool, k: nat)
    requires k < |p.calls|
  {
    var c := p.calls[k];
    && c.serial < |p.requests| && p.requests[c.serial].Start?
    // at most once
    && (forall l :: 0 <= l < |p.calls| && l != k ==> p.calls[l].serial != c.serial)
    // a write reported complete went out whole, with a zero-length packet exactly when one is due
    && (c.slot.status == Ok && c.slot.write ==>
          && c.slot.wire.sent == p.requests[c.serial].data && c.slot.tsize == |p.requests[c.serial].data|
          && c.slot.wire.zlp == ZlpDue(p.requests[c.serial]))
    // any report gives the bytes moved, and for a write they are a prefix of the data
    && c.slot.tsize <= |p.requests[c.serial].data|
    && (c.slot.write ==> c.slot.wire.sent == p.requests[c.serial].data[..c.slot.tsize])
    // a read counts the packets that came in, and is complete only if it is full or one of them was short
    && (!p.requests[c.serial].write ==>
          && Total(c.slot.wire.packets) == c.slot.tsize
          && (c.slot.status == Ok ==>
                c.slot.tsize == |p.requests[c.serial].data| || !AllFull(c.slot.wire.packets))
          && (c.slot.status == Invalid ==> c.slot.wire.failed))
  }

  lemma SoundReports(p: Pool, k: nat)
    requires Inv(p) && k < |p.calls|
    ensures Reports(p, k)
  {
    hide Reachable, Kept, SlotOk;
    var s := p.calls[k].slot;
    assert Serves(s, p.requests) && Accounted(s);
    assert s.data[..|s.data|] == s.data;
  }

  /**
    Nothing is done for a transfer after it has ended: an error is not reported
    as success, and of the packets of a complete read only the last one is short.
  */
  ghost predicate Tidy(s: Slot) {
    && (s.wire.failed <==> s.status == Invalid)
    && (!s.write && s.status == Ok ==>
          s.wire.packets != [] && AllFull(s.wire.packets[..|s.wire.packets| - 1]))
  }

  ghost predicate AllTidy(p: Pool) {
    && (forall i :: 0 <= i < |p.slots| && !p.slots[i].free ==> Tidy(p.slots[i]))
    && (forall k :: 0 <= k < |p.calls| ==> Tidy(p.calls[k].slot))
  }

  lemma PushTidy(s: Slot, hal: Hal, mps: nat)
    requires Accounted(s) && Tidy(s)
    ensures Tidy(Push(s, hal, mps))
  {
    hide Short, AllFull;
    if s.status == Busy && !s.write && hal.Moved? {
      var p := Received(Min(hal.bytes, s.bsize), mps);
      assert (s.wire.packets + [p])[..|s.wire.packets|] == s.wire.packets;
    }
  }

  lemma WorkTidy(p: Pool, i: nat, isr: bool, hal: Hal, mps: nat)
    requires AllTidy(p) && i < |p.slots| && (p.slots[i].free ==> !p.slots[i].cb && p.slots[i].status != Busy)
    requires !p.slots[i].free ==> Accounted(p.slots[i])
    ensures AllTidy(RunWork(p, i, isr, hal, mps))
  {
    hide Push, AllFull, Accounted;
    PushStays(p.slots[i], hal, mps);
    if p.slots[i].free {
      assert Push(p.slots[i], hal, mps) == p.slots[i] by { PushEnded(p.slots[i], hal, mps); }
    } else {
      PushTidy(p.slots[i], hal, mps);
    }
  }

  lemma PushEnded(s: Slot, hal: Hal, mps: nat)
    requires s.status != Busy
    ensures Push(s, hal, mps) == s
  {
  }

  lemma StepTidy(p: Pool, e: Event)
    requires Inv(p) && AllTidy(p)
    ensures AllTidy(Step(p, e))
  {
    hide Reachable, Once, Kept, CallsOk, Accounted, RunWork, NoZlp, AllFull;
    match e {
      case Start(_, _, _, _, _, _) =>
      case Work(i, hal, mps) =>
        if i < |p.slots| && p.slots[i].queued {
          assert SlotOk(p.slots[i], p.requests);
          var s := p.slots[i].(queued := false);
          AccountedMark(p.slots[i], false);
          WorkTidy(p.(slots := p.slots[i := s]), i, false, hal, mps);
        }
      case Endpoint(ep, _, _, isr, hal, mps) =>
        if GetTransfer(p.slots, ep).Some? {
          var i := GetTransfer(p.slots, ep).value;
          assert SlotOk(p.slots[i], p.requests);
          WorkTidy(p, i, isr, hal, mps);
        }
      case Cancel(ep) =>
        if GetTransfer(p.slots, ep).Some? { assert SlotOk(p.slots[GetTransfer(p.slots, ep).value], p.requests); }
    }
  }

  lemma AccountedMark(s: Slot, queued: bool)
    ensures Accounted(s) <==> Accounted(s.(queued := queued))
  {
  }

  lemma {:induction false} RunTidy(p: Pool, es: seq<Event>)
    requires Inv(p) && AllTidy(p) && AllAllowed(p, es)
    ensures AllTidy(Run(p, es))
    decreases |es|
  {
    hide Inv, AllTidy, Step;
    if es != [] {
      StepKeeps(p, es[0]);
      StepTidy(p, es[0]);
      RunTidy(Step(p, es[0]), es[1..]);
    }
  }

  /** What callers observe after any run from power-up. */
  lemma RunReports(es: seq<Event>, k: nat)
    requires AllAllowed(Initial, es) && k < |Run(Initial, es).calls|
    ensures Reports(Run(Initial, es), k) && Tidy(Run(Initial, es).calls[k].slot)
  {
    InitialSound();
    RunKeeps(Initial, es);
    SoundReports(Run(Initial, es), k);
    RunTidy(Initial, es);
  }

  /** Whole packets that leave room keep a read going; only an error of the controller makes it invalid. */
  lemma ReadGoesOn(s: Slot, hal: Hal, mps: nat)
    requires s.status == Busy && !s.write && 0 < mps
    ensures var s' := Push(s, hal, mps);
      && (s'.status == Invalid <==> hal.HalError?)
      && (s'.status == Busy <==> hal.Moved? && 0 < hal.bytes < s.bsize && hal.bytes % mps == 0)
      && (hal.Moved? ==> s'.tsize == s.tsize + Min(hal.bytes, s.bsize))
  {
  }

  /** A write goes on until a turn finds nothing left; only an error of the controller makes it invalid. */
  lemma WriteGoesOn(s: Slot, hal: Hal, mps: nat)
    requires s.status == Busy && s.write
    ensures var s' := Push(s, hal, mps);
      && (s'.status == Ok <==> s.bsize == 0)
      && (s'.status == Invalid <==> 0 < s.bsize && hal.HalError?)
      && (s'.wire.zlp <==> s.wire.zlp || (s.bsize == 0 && !s.noZlp))
  {
  }

  lemma InitialSound()
    ensures Inv(Initial)
  {
  }

  /** A transfer that has ended is never stuck: its work item is queued, and running it makes the callback. */
  lemma EndedIsReported(p: Pool, i: nat, hal: Hal, mps: nat)
    requires Inv(p) && i < |p.slots| && !p.slots[i].free && p.slots[i].status != Busy
    ensures var p' := Step(p, Work(i, hal, mps));
      p'.slots[i].free && |p'.calls| == |p.calls| + 1 && p'.calls[|p.calls|].serial == p.slots[i].serial
  {
    assert SlotOk(p.slots[i], p.requests);
  }

  /** A cancel ends exactly a busy transfer: its next work item reports it as cancelled, with what was moved so far. */
  lemma CancelEnds(p: Pool, ep: nat, i: nat, hal: Hal, mps: nat)
    requires Inv(p) && GetTransfer(p.slots, ep) == Some(i)
    ensures var s, q := p.slots[i], Step(Step(p, Cancel(ep)), Work(i, hal, mps));
      if s.status == Busy then
        && q.slots[i].free && |q.calls| == |p.calls| + 1
        && var c := q.calls[|p.calls|];
           c.serial == s.serial && c.slot.status == Canceled && c.slot.tsize == s.tsize && c.slot.wire == s.wire
      else Step(p, Cancel(ep)) == p
  {
    hide GetTransferFrom, Reachable, Once, Kept, CallsOk;
    assert SlotOk(p.slots[i], p.requests);
  }

  /**
    A data event moves the transfer of its endpoint on, at once or from the work
    queue with the same outcome; other events and other endpoints change nothing.
  */
  lemma EventReaches(p: Pool, ep: nat, i: nat, hal: Hal, mps: nat)
    requires GetTransfer(p.slots, ep) == Some(i) && !p.slots[i].queued
    ensures forall out, isr :: Step(p, Endpoint(ep, false, out, isr, hal, mps)) == p
    ensures Step(Step(p, Endpoint(ep, true, false, true, hal, mps)), Work(i, hal, mps))
         == Step(p, Endpoint(ep, true, false, false, hal, mps))
    ensures forall isr: bool ::
      var q := Step(p, Endpoint(ep, true, true, isr, hal, mps));
      && (forall k :: 0 <= k < |p.slots| && k != i ==> q.slots[k] == p.slots[k])
      && (p.slots[i].status == Busy && 0 < p.slots[i].bsize && hal.Moved? ==>
            q.slots[i].tsize == p.slots[i].tsize + Min(hal.bytes, p.slots[i].bsize))
  {
    hide GetTransferFrom, Short;
    var q := Step(Step(p, Endpoint(ep, true, false, true, hal, mps)), Work(i, hal, mps));
    var s := p.slots[i];
    assert s.(queued := true).(queued := false) == s;
    assert p.slots[i := s.(queued := true)][i := s] == p.slots;
    assert q == RunWork(p, i, false, hal, mps);
  }

  /** Without a callback a slot is never given back, whatever happens afterwards. */
  lemma {:induction false} NullCallbackLeaks(p: Pool, i: nat, es: seq<Event>)
    requires i < |p.slots| && !p.slots[i].free && !p.slots[i].cb
    ensures i < |Run(p, es).slots| && !Run(p, es).slots[i].free && !Run(p, es).slots[i].cb
    decreases |es|
  {
    if es != [] {
      LeakStep(p, i, es[0]);
      NullCallbackLeaks(Step(p, es[0]), i, es[1..]);
    }
  }

  lemma PushStays(s: Slot, hal: Hal, mps: nat)
    ensures Push(s, hal, mps).cb == s.cb && Push(s, hal, mps).free == s.free
  {
    hide Short, Advance;
    if hal.Moved? { AdvanceStays(s, hal.bytes); }
  }

  lemma AdvanceStays(s: Slot, n: nat)
    ensures var s' := Advance(s, n);
      s'.cb == s.cb && s'.free == s.free && s'.at >= s.at && s'.tsize >= s.tsize
  {
  }

  lemma LeakWork(p: Pool, i: nat, j: nat, isr: bool, hal: Hal, mps: nat)
    requires i < |p.slots| && j < |p.slots| && !p.slots[i].free && !p.slots[i].cb
    ensures var s := RunWork(p, j, isr, hal, mps).slots[i]; !s.free && !s.cb
  {
    hide Push;
    PushStays(p.slots[j], hal, mps);
  }

  lemma LeakStep(p: Pool, i: nat, e: Event)
    requires i < |p.slots| && !p.slots[i].free && !p.slots[i].cb
    ensures !Step(p, e).slots[i].free && !Step(p, e).slots[i].cb
  {
    hide RunWork, NoZlp;
    match e {
      case Work(j, hal, mps) =>
        if j < |p.slots| {
          LeakWork(p.(slots := p.slots[j := p.slots[j].(queued := false)]), i, j, false, hal, mps);
        }
      case Endpoint(ep, _, out, isr, hal, mps) =>
        if GetTransfer(p.slots, ep).Some? {
          LeakWork(p, i, GetTransfer(p.slots, ep).value, isr, hal, mps);
        }
      case Start(_, _, _, _, _, _) =>
      case Cancel(ep) =>
    }
  }
}
