/**
  The transfer pool with the work handler no longer in one piece.  The handler
  takes no lock, so between its test of the status, its access to the endpoint
  and its report a thread can start or cancel transfers and an interrupt can
  come in, on the same slot as well.  One thread is in the handler at a time.
*/
module UsbPreempt {
  import opened Basics
  import opened UsbTransfer

  /** A handler under way on slot `i`; `busy` is what its test of the status found. */
  datatype Task = Task(i: nat, busy: bool, acted: bool)

  datatype Sys = Sys(pool: Pool, task: Option<Task>)

  datatype Part =
    | Enter(i: nat)
    | EnterCallback(ep: nat)
    | Act(hal: Hal, mps: nat)
    | Leave
    | Meanwhile(e: Event)

  /** What can come in between: starts and cancels of other threads, and interrupts. */
  predicate Interrupts(e: Event) { e.Start? || e.Cancel? || (e.Endpoint? && e.isr) }

  function WithSlot(p: Pool, i: nat, s: Slot): Pool
    requires i < |p.slots|
  {
    p.(slots := p.slots[i := s])
  }

  /** usb_transfer_work behind the test: the endpoint is written or read, whatever the status is by now. */
  function PushOn(s: Slot, hal: Hal, mps: nat): Slot {
    if s.write then PushWrite(s, hal) else PushRead(s, hal, mps)
  }

  /** usb_transfer_work from the label done, in thread context. */
  function Report(p: Pool, i: nat): (p': Pool)
    requires i < |p.slots|
    ensures |p'.slots| == |p.slots|
  {
    var s := p.slots[i];
    if s.status == Busy || !s.cb then p
    else WithSlot(p, i, s.(cb := false, free := true)).(calls := p.calls + [Call(s.serial, s)])
  }

  predicate Sane(s: Sys) { s.task.Some? ==> s.task.value.i < |s.pool.slots| }

  function PartStep(s: Sys, e: Part): (s': Sys)
    requires Sane(s)
    ensures Sane(s') && |s'.pool.slots| == |s.pool.slots|
  {
    var p := s.pool;
    match e
    case Enter(i) =>
      if s.task.None? && i < |p.slots| && p.slots[i].queued then
        Sys(WithSlot(p, i, p.slots[i].(queued := false)), Some(Task(i, p.slots[i].status == Busy, false)))
      else s
    case EnterCallback(ep) =>
      if s.task.None? && GetTransfer(p.slots, ep).Some? then
        var i := GetTransfer(p.slots, ep).value;
        s.(task := Some(Task(i, p.slots[i].status == Busy, false)))
      else s
    case Act(hal, mps) =>
      if s.task.Some? && !s.task.value.acted then
        var t := s.task.value;
        Sys(if t.busy then WithSlot(p, t.i, PushOn(p.slots[t.i], hal, mps)) else p, Some(t.(acted := true)))
      else s
    case Leave =>
      if s.task.Some? && s.task.value.acted then Sys(Report(p, s.task.value.i), None) else s
    case Meanwhile(e') => if Interrupts(e') then s.(pool := Step(p, e')) else s
  }

  function PartRun(s: Sys, es: seq<Part>): (s': Sys)
    requires Sane(s)
    ensures Sane(s') && |s'.pool.slots| == |s.pool.slots|
    decreases |es|
  {
    if es == [] then s else PartRun(PartStep(s, es[0]), es[1..])
  }

  ghost predicate PartAllowed(s: Sys, e: Part) { e.Meanwhile? ==> Allowed(s.pool, e.e) }

  ghost predicate AllPartsAllowed(s: Sys, es: seq<Part>)
    requires Sane(s)
    decreases |es|
  {
    es == [] || (PartAllowed(s, es[0]) && AllPartsAllowed(PartStep(s, es[0]), es[1..]))
  }

  // ----- a handler under way counts as a queued one -----

  /** The pool with the handler under way put back into the work queue. */
  function Marked(s: Sys): (p: Pool)
    requires Sane(s)
    ensures |p.slots| == |s.pool.slots|
  {
    if s.task.None? then s.pool
    else WithSlot(s.pool, s.task.value.i, s.pool.slots[s.task.value.i].(queued := true))
  }

  ghost predicate Sound(s: Sys) {
    && Sane(s) && Inv(Marked(s))
    && (s.task.Some? && s.task.value.busy && !s.task.value.acted ==> !s.pool.slots[s.task.value.i].free)
  }

  /** What comes in between does not look at the mark. */
  lemma MeanwhileCommutes(s: Sys, e: Event)
    requires Sane(s) && Interrupts(e) && s.task.Some?
    ensures Step(Marked(s), e) == Marked(s.(pool := Step(s.pool, e)))
    ensures !s.pool.slots[s.task.value.i].free ==> !Step(s.pool, e).slots[s.task.value.i].free
  {
    hide NoZlp, GetTransfer, FirstFree, StartTransfer, CancelTransfer, EndpointCallback, RunWork;
    if e.Start? {
      SameFree(s.pool.slots, Marked(s).slots);
      StartCommutes(s, e);
    } else {
      SameEndpoints(s.pool.slots, Marked(s).slots, e.ep);
      if e.Cancel? { CancelCommutes(s, e.ep); } else { EndpointCommutes(s, e); }
    }
  }

  lemma CancelCommutes(s: Sys, ep: nat)
    requires Sane(s) && s.task.Some? && GetTransfer(Marked(s).slots, ep) == GetTransfer(s.pool.slots, ep)
    ensures CancelTransfer(Marked(s), ep) == Marked(s.(pool := CancelTransfer(s.pool, ep)))
    ensures CancelTransfer(s.pool, ep).slots[s.task.value.i].free == s.pool.slots[s.task.value.i].free
  {
    hide GetTransferFrom;
    assert CancelTransfer(Marked(s), ep).slots == Marked(s.(pool := CancelTransfer(s.pool, ep))).slots;
  }

  lemma EndpointCommutes(s: Sys, e: Event)
    requires Sane(s) && s.task.Some? && e.Endpoint? && e.isr
    requires GetTransfer(Marked(s).slots, e.ep) == GetTransfer(s.pool.slots, e.ep)
    ensures EndpointCallback(Marked(s), e) == Marked(s.(pool := EndpointCallback(s.pool, e)))
    ensures EndpointCallback(s.pool, e).slots[s.task.value.i].free == s.pool.slots[s.task.value.i].free
  {
    hide GetTransferFrom, Push;
    var r := GetTransfer(s.pool.slots, e.ep);
    if r.Some? {
      PushMark(s.pool.slots[r.value], e.hal, e.mps);
      PushStays(s.pool.slots[r.value], e.hal, e.mps);
      assert EndpointCallback(Marked(s), e).slots == Marked(s.(pool := EndpointCallback(s.pool, e))).slots;
    }
  }

  lemma AdvanceMark(s: Slot, n: nat)
    ensures Advance(s.(queued := true), n) == Advance(s, n).(queued := true)
  {
  }

  /** The endpoint work does not look at the mark either. */
  lemma PushOnMark(s: Slot, hal: Hal, mps: nat)
    ensures PushOn(s.(queued := true), hal, mps) == PushOn(s, hal, mps).(queued := true)
    ensures PushOn(s, hal, mps).free == s.free
  {
    hide Short, Advance;
    var s' := s.(queued := true);
    match hal {
      case HalError =>
      case Moved(n) =>
        AdvanceMark(s, n);
        AdvanceStays(s, n);
        AdvanceStays(s', n);
        if s.write { WriteMark(s, n); } else { ReadMark(s, n, mps); }
    }
  }

  lemma WriteMark(s: Slot, n: nat)
    ensures PushWrite(s.(queued := true), Moved(n)) == PushWrite(s, Moved(n)).(queued := true)
    ensures PushWrite(s, Moved(n)).free == s.free
  {
    hide Advance;
    AdvanceMark(s, n);
    AdvanceStays(s, n);
  }

  lemma ReadMark(s: Slot, n: nat, mps: nat)
    ensures PushRead(s.(queued := true), Moved(n), mps) == PushRead(s, Moved(n), mps).(queued := true)
    ensures PushRead(s, Moved(n), mps).free == s.free
  {
    hide Advance, Short;
    AdvanceMark(s, n);
    AdvanceStays(s, n);
  }

  lemma PushMark(s: Slot, hal: Hal, mps: nat)
    ensures Push(s.(queued := true), hal, mps) == Push(s, hal, mps).(queued := true)
  {
    hide PushWrite, PushRead;
    PushOnMark(s, hal, mps);
  }

  lemma SameFree(a: seq<Slot>, b: seq<Slot>)
    requires |a| == |b| && forall j :: 0 <= j < |a| ==> a[j].free == b[j].free
    ensures FirstFree(a) == FirstFree(b)
  {
    hide FirstFreeFrom;
    match FirstFree(a)
    case Some(i) => assert b[i].free;
    case None =>
  }

  lemma StartCommutes(s: Sys, e: Event)
    requires Sane(s) && e.Start? && s.task.Some? && FirstFree(Marked(s).slots) == FirstFree(s.pool.slots)
    ensures StartTransfer(Marked(s), e) == Marked(s.(pool := StartTransfer(s.pool, e)))
    ensures !s.pool.slots[s.task.value.i].free ==> !StartTransfer(s.pool, e).slots[s.task.value.i].free
  {
    hide NoZlp, FirstFreeFrom;
    assert StartTransfer(Marked(s), e).slots == Marked(s.(pool := StartTransfer(s.pool, e))).slots;
  }

  lemma MeanwhileKeeps(s: Sys, e: Event)
    requires Sound(s) && Allowed(s.pool, e) && Interrupts(e)
    ensures Sound(s.(pool := Step(s.pool, e)))
  {
    hide Step, Inv;
    if s.task.Some? {
      MarkedAllowed(s, e);
      MeanwhileCommutes(s, e);
    }
    StepKeeps(Marked(s), e);
  }

  lemma MarkedAllowed(s: Sys, e: Event)
    requires Sane(s) && Allowed(s.pool, e)
    ensures Allowed(Marked(s), e)
  {
  }

  lemma EnterKeeps(s: Sys, e: Part)
    requires Sound(s) && s.task.None? && (e.Enter? || e.EnterCallback?)
    ensures Sound(PartStep(s, e))
  {
    hide Reachable, Once, Kept, CallsOk, SlotOk;
    var s', p := PartStep(s, e), s.pool;
    if s'.task.Some? {
      var i := s'.task.value.i;
      assert SlotOk(p.slots[i], p.requests);
      assert Marked(s').slots == p.slots[i := p.slots[i].(queued := true)];
      QueuedOk(p.slots[i], p.requests);
      TouchKeeps(p, i, p.slots[i].(queued := true));
    }
  }

  lemma QueuedOk(o: Slot, requests: seq<Event>)
    ensures SlotOk(o, requests) ==> SlotOk(o.(queued := true), requests)
    ensures SlotOk(o.(queued := true), requests) && (o.free || o.status == Busy) ==> SlotOk(o, requests)
  {
  }

  lemma ActKeeps(s: Sys, hal: Hal, mps: nat)
    requires Sound(s) && s.task.Some? && !s.task.value.acted
    ensures Sound(PartStep(s, Act(hal, mps)))
  {
    hide Reachable, Once, Kept, CallsOk, Accounted, PushWrite, PushRead;
    var t, m := s.task.value, Marked(s);
    if t.busy {
      var o := m.slots[t.i];
      assert SlotOk(o, m.requests);
      var o' := PushOn(o, hal, mps);
      if o.write { PushWriteKeeps(o, hal); } else { PushReadKeeps(o, hal, mps); }
      PushOnMark(s.pool.slots[t.i], hal, mps);
      TouchKeeps(m, t.i, o');
      assert Marked(PartStep(s, Act(hal, mps))).slots == m.slots[t.i := o'];
    }
  }

  lemma ServesSame(o: Slot, requests: seq<Event>)
    ensures Accounted(o.(queued := true)) ==> Accounted(o)
    ensures Serves(o.(queued := true), requests) ==> Serves(o, requests)
  {
  }

  lemma LeaveKeeps(s: Sys)
    requires Sound(s) && s.task.Some? && s.task.value.acted
    ensures Sound(PartStep(s, Leave))
  {
    hide Reachable, Once, Kept, CallsOk, Accounted, NoZlp;
    var i, m, p := s.task.value.i, Marked(s), s.pool;
    var o := p.slots[i];
    assert SlotOk(m.slots[i], m.requests);
    if o.status == Busy || !o.cb {
      assert m.slots[i := o] == p.slots;
      QueuedOk(o, m.requests);
      TouchKeeps(m, i, o);
      assert m.(slots := m.slots[i := o]) == p;
    } else {
      ServesSame(o, m.requests);
      CallBackKeeps(m, i, o);
      var o' := o.(cb := false, free := true);
      assert m.slots[i := o'] == p.slots[i := o'];
    }
  }

  lemma PartStepKeeps(s: Sys, e: Part)
    requires Sound(s) && PartAllowed(s, e)
    ensures Sound(PartStep(s, e))
  {
    hide Inv, Step, Report, PushOn;
    match e {
      case Enter(_) => if s.task.None? { EnterKeeps(s, e); }
      case EnterCallback(_) => if s.task.None? { EnterKeeps(s, e); }
      case Act(hal, mps) => if s.task.Some? && !s.task.value.acted { ActKeeps(s, hal, mps); }
      case Leave => if s.task.Some? && s.task.value.acted { LeaveKeeps(s); }
      case Meanwhile(e') => if Interrupts(e') { MeanwhileKeeps(s, e'); }
    }
  }

  /** The pool stays sound in every interleaving of the handler's parts with everything that can come in between. */
  lemma {:induction false} PartRunKeeps(s: Sys, es: seq<Part>)
    requires Sound(s) && AllPartsAllowed(s, es)
    ensures Sound(PartRun(s, es))
    decreases |es|
  {
    hide Inv, PartStep;
    if es != [] {
      PartStepKeeps(s, es[0]);
      PartRunKeeps(PartStep(s, es[0]), es[1..]);
    }
  }

  /** So callers observe the same: one callback at most, and what it reports is what went out. */
  lemma PreemptedReports(es: seq<Part>, k: nat)
    requires AllPartsAllowed(Sys(Initial, None), es) && k < |PartRun(Sys(Initial, None), es).pool.calls|
    ensures Reports(PartRun(Sys(Initial, None), es).pool, k)
  {
    hide Inv;
    InitialSound();
    PartRunKeeps(Sys(Initial, None), es);
    var s := PartRun(Sys(Initial, None), es);
    SoundReports(Marked(s), k);
  }

  /** No interrupt and no cancel ended the transfer between the handler's test and its access. */
  predicate Undisturbed(s: Sys, e: Part)
    requires Sane(s)
  {
    e.Act? && s.task.Some? && !s.task.value.acted && s.task.value.busy ==>
      s.pool.slots[s.task.value.i].status == Busy
  }

  ghost predicate AllUndisturbed(s: Sys, es: seq<Part>)
    requires Sane(s)
    decreases |es|
  {
    es == [] || (Undisturbed(s, es[0]) && AllUndisturbed(PartStep(s, es[0]), es[1..]))
  }

  lemma ActTidy(s: Sys, hal: Hal, mps: nat)
    requires Sound(s) && AllTidy(s.pool) && Undisturbed(s, Act(hal, mps))
    requires s.task.Some? && s.task.value.busy && !s.task.value.acted
    ensures AllTidy(PartStep(s, Act(hal, mps)).pool)
  {
    hide Accounted, AllFull, PushRead, PushWrite;
    var i := s.task.value.i;
    assert SlotOk(Marked(s).slots[i], s.pool.requests);
    AccountedMark(s.pool.slots[i], true);
    PushTidy(s.pool.slots[i], hal, mps);
  }

  lemma LeaveTidy(s: Sys)
    requires Sound(s) && AllTidy(s.pool) && s.task.Some?
    ensures AllTidy(Report(s.pool, s.task.value.i))
  {
    hide AllFull, Accounted, Reachable, Once, Kept, CallsOk;
    assert SlotOk(Marked(s).slots[s.task.value.i], s.pool.requests);
  }

  lemma SameTidy(s: Sys)
    requires Sane(s)
    ensures AllTidy(Marked(s)) <==> AllTidy(s.pool)
  {
    hide AllFull;
    if s.task.Some? {
      var a, b, i := s.pool.slots, Marked(s).slots, s.task.value.i;
      assert Tidy(a[i]) <==> Tidy(b[i]);
      assert forall k :: 0 <= k < |a| && k != i ==> a[k] == b[k];
    }
  }

  lemma PartStepTidy(s: Sys, e: Part)
    requires Sound(s) && AllTidy(s.pool) && Undisturbed(s, e)
    ensures AllTidy(PartStep(s, e).pool)
  {
    hide Inv, Step, PushOn, AllFull;
    match e {
      case Act(hal, mps) =>
        if s.task.Some? && s.task.value.busy && !s.task.value.acted { ActTidy(s, hal, mps); }
      case Meanwhile(e') =>
        if Interrupts(e') {
          SameTidy(s);
          StepTidy(Marked(s), e');
          if s.task.Some? { MeanwhileCommutes(s, e'); }
          SameTidy(PartStep(s, e));
        }
      case Leave => if s.task.Some? && s.task.value.acted { LeaveTidy(s); }
      case Enter(_) =>
      case EnterCallback(_) =>
    }
  }

  lemma {:induction false} PartRunTidy(s: Sys, es: seq<Part>)
    requires Sound(s) && AllTidy(s.pool) && AllPartsAllowed(s, es) && AllUndisturbed(s, es)
    ensures AllTidy(PartRun(s, es).pool)
    decreases |es|
  {
    hide Inv, Marked, AllTidy, PartStep;
    if es != [] {
      PartStepKeeps(s, es[0]);
      PartStepTidy(s, es[0]);
      PartRunTidy(PartStep(s, es[0]), es[1..]);
    }
  }

  /** As long as nothing ends a transfer between test and access, an error is not reported as success here either. */
  lemma PreemptedTidy(es: seq<Part>, k: nat)
    requires AllPartsAllowed(Sys(Initial, None), es) && AllUndisturbed(Sys(Initial, None), es)
    requires k < |PartRun(Sys(Initial, None), es).pool.calls|
    ensures Tidy(PartRun(Sys(Initial, None), es).pool.calls[k].slot)
  {
    hide Inv;
    InitialSound();
    PartRunTidy(Sys(Initial, None), es);
  }

  /**
    Otherwise it can be: on every endpoint with a busy read, an error that an interrupt
    meets between the handler's test and its read is reported as success exactly when
    that read is short or fills the buffer.
  */
  lemma ErrorOverruled(s: Sys, ep: nat, i: nat, n: nat, mps: nat)
    requires Sane(s) && s.task.None? && GetTransfer(s.pool.slots, ep) == Some(i)
    requires var t := s.pool.slots[i]; t.status == Busy && !t.write && t.cb
    ensures
      var t := s.pool.slots[i];
      var s2 := PartStep(PartStep(s, EnterCallback(ep)), Meanwhile(Endpoint(ep, true, true, true, HalError, mps)));
      var p := PartStep(PartStep(s2, Act(Moved(n), mps)), Leave).pool;
      && s2.pool.slots[i].status == Invalid
      && |p.calls| == |s.pool.calls| + 1
      && var c := p.calls[|s.pool.calls|];
         c.slot.wire.failed && c.serial == t.serial &&
         (c.slot.status == Ok <==> Short(Min(n, t.bsize), mps) || t.bsize <= n)
  {
    hide Short, GetTransferFrom, Inv;
    var t := s.pool.slots[i];
    var s1 := PartStep(s, EnterCallback(ep));
    assert s1 == s.(task := Some(Task(i, true, false)));
    var s2 := PartStep(s1, Meanwhile(Endpoint(ep, true, true, true, HalError, mps)));
    var t2 := t.(status := Invalid, wire := t.wire.(failed := true), queued := true);
    assert s2.pool == WithSlot(s.pool, i, t2);
    var s3 := PartStep(s2, Act(Moved(n), mps));
    assert s3.pool.slots[i] == PushRead(t2, Moved(n), mps);
  }

  /** Without anything in between, the parts are the handler in one piece. */
  lemma PartsAreWhole(p: Pool, i: nat, hal: Hal, mps: nat)
    requires i < |p.slots| && p.slots[i].queued
    ensures var s := PartStep(PartStep(PartStep(Sys(p, None), Enter(i)), Act(hal, mps)), Leave);
      s == Sys(Step(p, Work(i, hal, mps)), None)
  {
    hide PushWrite, PushRead;
    var s1 := PartStep(Sys(p, None), Enter(i));
    var s2 := PartStep(s1, Act(hal, mps));
    assert s2.pool.slots[i] == Push(s1.pool.slots[i], hal, mps);
    assert s2.pool.slots == p.slots[i := s2.pool.slots[i]];
    assert PartStep(s2, Leave).pool.slots == Step(p, Work(i, hal, mps)).slots;
  }
}
