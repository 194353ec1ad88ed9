/**
  Control transfers on endpoint zero of the USB device core.  The controller
  reports a setup packet, a data packet from the host, or that the last packet
  sent was taken; the device answers by writing packets.  Sections 5.5.3 and
  8.5.3 of the USB 2.0 specification say which packets make up a data stage.
*/
module UsbControl {
  import opened Basics

  type Packet = seq<byte>

  const PACKET := 64
  const EP0_OUT := 0x00
  const EP0_IN := 0x80

  function Concat(ps: seq<Packet>): seq<byte> {
    if ps == [] then [] else ps[0] + Concat(ps[1..])
  }

  /**
    usb_dev_priv as far as control transfers use it.  `src` is what data_buf
    points at in an IN stage, `req` what an OUT stage has put into req_data,
    `out` the packets written to endpoint 0x80, `handled` the data of each
    request passed to the handlers, `stalls` the endpoints stalled.
  */
  datatype Dev = Dev(
    bufSize: nat, residue: nat, src: seq<byte>, req: seq<byte>, zero: bool, upper: bool,
    out: seq<Packet>, handled: seq<seq<byte>>, stalls: seq<nat>)

  /** What a request handler answers: nothing, or the data it offers. */
  datatype Reply = Refused | Offered(data: seq<byte>)

  /** usb_data_to_host: the next packet, possibly empty. */
  function DataToHost(d: Dev): Dev {
    var chunk := Min(PACKET, Min(d.residue, |d.src|));
    d.(out := d.out + [d.src[..chunk]], src := d.src[chunk..], residue := d.residue - chunk)
  }

  /** A setup or data packet that cannot be read from the controller. */
  function Unread(d: Dev, setup: bool): Dev {
    d.(stalls := d.stalls + if !setup && d.residue != 0 then [EP0_IN, EP0_OUT] else [EP0_IN])
  }

  /** A setup packet that asks for data, or has no data stage: the handler runs at once. */
  function SetupIn(d: Dev, wLength: nat, toHost: bool, reply: Reply): Dev
    requires toHost || wLength == 0
  {
    var d1 := d.(residue := wLength, src := [], req := [], handled := d.handled + [[]]);
    match reply
    case Refused => d1.(stalls := d.stalls + [EP0_IN])
    case Offered(data) =>
      var d2 := d1.(src := data);
      if data == [] && wLength != 0 then d2.(upper := true)
      else
        var n := Min(|data|, wLength);
        DataToHost(d2.(residue := n, zero := n < wLength && n % PACKET == 0))
  }

  /** A setup packet that announces data from the host. */
  function SetupOut(d: Dev, wLength: nat): Dev
    requires 0 < wLength
  {
    if d.bufSize < wLength then d.(stalls := d.stalls + [EP0_IN, EP0_OUT])
    else d.(residue := wLength, src := [], req := [])
  }

  /** A data packet from the host; the driver hands over at most the residue. */
  function OutData(d: Dev, p: Packet, accept: bool): Dev {
    if d.residue == 0 then d
    else
      var chunk := Min(|p|, d.residue);
      var d1 := d.(req := d.req + p[..chunk], residue := d.residue - chunk);
      if d1.residue != 0 then d1
      else
        var d2 := d1.(handled := d.handled + [d1.req]);
        if accept then DataToHost(d2) else d2.(stalls := d.stalls + [EP0_IN])
  }

  /** The host has taken the last packet. */
  function InDone(d: Dev): Dev {
    if d.upper then d.(upper := false, residue := 0)
    else
      var d1 := if d.zero && d.residue == 0 then DataToHost(d).(zero := false) else d;
      if d1.residue != 0 then DataToHost(d1) else d1
  }

  /** Each packet sent is taken by the host, until one is answered with none. */
  function InStage(d: Dev): Dev
    requires d.residue <= |d.src|
    decreases d.residue, d.zero
  {
    var d1 := InDone(d);
    if |d1.out| == |d.out| then d1 else InStage(d1)
  }

  // ----- what section 8.5.3.2 asks of a data stage -----

  /**
    `ps` carries `data` of a transfer of `wLength` bytes: full packets up to the
    last one, which is short exactly if the host cannot tell the end by count.
  */
  ghost predicate DataStage(ps: seq<Packet>, data: seq<byte>, wLength: nat) {
    && ps != [] && Concat(ps) == data && |data| <= wLength
    && (forall i :: 0 <= i < |ps| - 1 ==> |ps[i]| == PACKET)
    && |ps[|ps| - 1]| <= PACKET
    && (|data| < wLength ==> |ps[|ps| - 1]| < PACKET)
    && (|data| == wLength && ps[|ps| - 1] == [] ==> data == [])
  }

  /** There is only one way to do that. */
  lemma {:induction false} DataStageUnique(ps: seq<Packet>, qs: seq<Packet>, data: seq<byte>, wLength: nat)
    requires DataStage(ps, data, wLength) && DataStage(qs, data, wLength)
    ensures ps == qs
    decreases |ps|
  {
    assert ps[0] == data[..|ps[0]|] && qs[0] == data[..|qs[0]|];
    SinglePacket(ps, data, wLength);
    SinglePacket(qs, data, wLength);
    if |ps| == 1 {
      assert ps == [data] == qs;
    } else {
      var rest := data[PACKET..];
      assert Concat(ps[1..]) == rest && Concat(qs[1..]) == rest;
      DataStageUnique(ps[1..], qs[1..], rest, wLength - PACKET);
      assert ps == [ps[0]] + ps[1..] && qs == [qs[0]] + qs[1..];
    }
  }

  /** One packet is enough exactly when it ends the stage. */
  lemma SinglePacket(ps: seq<Packet>, data: seq<byte>, wLength: nat)
    requires DataStage(ps, data, wLength)
    ensures |ps| == 1 <==> |data| < PACKET || (|data| == PACKET == wLength)
    ensures |ps| == 1 ==> ps[0] == data
    ensures |ps| > 1 ==> |ps[0]| == PACKET && |data| >= PACKET
  {
    if |ps| == 1 {
      assert ps[1..] == [];
    } else {
      assert Concat(ps) == ps[0] + Concat(ps[1..]);
      LastWithin(ps[1..]);
    }
  }

  lemma {:induction false} LastWithin(ps: seq<Packet>)
    requires ps != []
    ensures |Concat(ps)| >= |ps[|ps| - 1]|
    ensures |ps| > 1 ==> |Concat(ps)| >= |ps[0]|
    decreases |ps|
  {
    if |ps| > 1 {
      LastWithin(ps[1..]);
    }
  }

  // ----- IN transfers -----

  /** The zero flag is set exactly if a whole number of packets is left and `wLength` is not reached. */
  predicate Marked(residue: nat, zero: bool, wLength: nat) {
    residue <= wLength && (zero <==> residue < wLength && residue % PACKET == 0)
  }

  lemma PrependPacket(p: Packet, ps: seq<Packet>, data: seq<byte>, wLength: nat)
    requires PACKET <= |data| && p == data[..PACKET] && PACKET <= wLength
    requires DataStage(ps, data[PACKET..], wLength - PACKET) && (data[PACKET..] == [] ==> |data| < wLength)
    ensures DataStage([p] + ps, data, wLength)
  {
    assert ([p] + ps)[1..] == ps;
    assert data == p + data[PACKET..];
  }

  lemma OnePacket(data: seq<byte>, wLength: nat)
    requires |data| <= PACKET && |data| <= wLength && (|data| == PACKET ==> wLength == PACKET)
    ensures DataStage([data], data, wLength)
  {
    assert [data][1..] == [];
    assert Concat([data]) == data + Concat([]);
  }

  lemma InDoneSends(d: Dev)
    requires !d.upper && d.residue <= |d.src| && (0 < d.residue || d.zero)
    ensures var e, n := InDone(d), Min(PACKET, d.residue);
      && e.out == d.out + [d.src[..n]] && e.src == d.src[n..] && e.residue == d.residue - n
      && e.zero == (d.zero && 0 < d.residue) && !e.upper && e.handled == d.handled && e.stalls == d.stalls
  {
  }

  /** The packets that follow while something is left to send. */
  lemma {:induction false} InStageSends(d: Dev, wLength: nat)
    requires !d.upper && d.residue <= |d.src| && Marked(d.residue, d.zero, wLength) && (0 < d.residue || d.zero)
    ensures var e := InStage(d);
      && d.out <= e.out && DataStage(e.out[|d.out|..], d.src[..d.residue], wLength)
      && e.residue == 0 && !e.zero && !e.upper && e.handled == d.handled && e.stalls == d.stalls
    decreases d.residue, d.zero
  {
    hide DataStage, DataToHost;
    var d1, e, data := InDone(d), InStage(d), d.src[..d.residue];
    var p := d.src[..Min(PACKET, d.residue)];
    InDoneSends(d);
    hide InDone;
    if 0 < d1.residue || d1.zero {
      InStageSends(d1, wLength - PACKET);
      assert d1.src[..d1.residue] == data[PACKET..];
      assert e.out[|d.out|..] == [p] + e.out[|d1.out|..];
      PrependPacket(p, e.out[|d1.out|..], data, wLength);
    } else {
      InStageStops(d1);
      assert e == d1 && e.out[|d.out|..] == [p] && p == data;
      OnePacket(data, wLength);
    }
  }

  /** A whole IN transfer in which the handler offers `data`, from any state. */
  function InTransfer(d: Dev, wLength: nat, data: seq<byte>): Dev
    requires data != [] || wLength == 0
  {
    InStage(SetupIn(d, wLength, true, Offered(data)))
  }

  /**
    The host receives the first min(offered, wLength) bytes in a proper data
    stage, exactly if no earlier request is still marked as answered by the upper
    layer, or a single packet is all there is to send.  The leftover mark makes
    the device drop everything after the first packet.
  */
  lemma InTransferExact(d: Dev, wLength: nat, data: seq<byte>)
    requires data != [] || wLength == 0
    ensures var e, n := InTransfer(d, wLength, data), Min(|data|, wLength);
      && d.out <= e.out && e.residue == 0 && !e.upper && e.handled == d.handled + [[]] && e.stalls == d.stalls
      && (DataStage(e.out[|d.out|..], data[..n], wLength)
          <==> !d.upper || n < PACKET || (n == PACKET == wLength))
      && (!d.upper ==> !e.zero)
  {
    hide DataStage, InStage;
    var n := Min(|data|, wLength);
    var d1, e := SetupIn(d, wLength, true, Offered(data)), InTransfer(d, wLength, data);
    var p, body := data[..Min(PACKET, n)], data[..n];
    assert d1.out == d.out + [p];
    if n < PACKET || n == PACKET == wLength {
      OnePacket(body, wLength);
      assert p == body && d1.residue == 0 && !d1.zero;
    } else {
      assert body[..PACKET] == p && body[PACKET..] == d1.src[..d1.residue];
    }
    if d.upper || (d1.residue == 0 && !d1.zero) {
      InStageStops(d1);
      assert e.out[|d.out|..] == [p];
      if DataStage([p], body, wLength) { SinglePacket([p], body, wLength); }
    } else {
      InStageSends(d1, wLength - PACKET);
      assert e.out[|d.out|..] == [p] + e.out[|d1.out|..];
      PrependPacket(p, e.out[|d1.out|..], body, wLength);
    }
  }

  lemma InStageStops(d: Dev)
    requires d.residue <= |d.src| && (d.upper || (d.residue == 0 && !d.zero))
    ensures InStage(d) == if d.upper then d.(upper := false, residue := 0) else d
  {
  }

  /** An offer of no data hands the transfer to the upper layer: the core sends nothing and leaves its mark. */
  lemma EmptyOfferLeavesMark(d: Dev, wLength: nat)
    requires 0 < wLength
    ensures var e := SetupIn(d, wLength, true, Offered([]));
      e.upper && e.out == d.out && e.stalls == d.stalls && e.handled == d.handled + [[]]
  {
  }

  // ----- OUT transfers -----

  function OutStage(d: Dev, ps: seq<Packet>, accept: bool): Dev
    decreases |ps|
  {
    if ps == [] then d else OutStage(OutData(d, ps[0], accept), ps[1..], accept)
  }

  /** From `d` the host's bytes `all` lead to `e`: short of the residue, or handled and answered. */
  ghost predicate Collected(d: Dev, e: Dev, all: seq<byte>, accept: bool) {
    var n := d.residue;
    if n == 0 then e == d
    else if |all| < n then e == d.(req := d.req + all, residue := n - |all|)
    else
      && e.handled == d.handled + [d.req + all[..n]] && e.residue == 0
      && e.zero == d.zero && e.upper == d.upper
      && (accept ==> e.out == d.out + [d.src[..0]] && e.stalls == d.stalls)
      && (!accept ==> e.out == d.out && e.stalls == d.stalls + [EP0_IN])
  }

  lemma CollectMore(d: Dev, p: Packet, rest: seq<byte>, accept: bool, e: Dev)
    requires |p| < d.residue && Collected(OutData(d, p, accept), e, rest, accept)
    ensures Collected(d, e, p + rest, accept)
  {
    assert p[..|p|] == p;
    assert d.req + (p + rest) == (d.req + p) + rest;
    if d.residue <= |p| + |rest| {
      var n := d.residue - |p|;
      assert (p + rest)[..d.residue] == p + rest[..n];
      assert d.req + (p + rest[..n]) == (d.req + p) + rest[..n];
    }
  }

  lemma CollectLast(d: Dev, p: Packet, rest: seq<byte>, accept: bool)
    requires 0 < d.residue <= |p|
    ensures Collected(d, OutData(d, p, accept), p + rest, accept) && OutData(d, p, accept).residue == 0
  {
    assert (p + rest)[..d.residue] == p[..d.residue];
  }

  lemma {:induction false} OutStageCollects(d: Dev, ps: seq<Packet>, accept: bool)
    ensures Collected(d, OutStage(d, ps, accept), Concat(ps), accept)
    decreases |ps|
  {
    if ps == [] {
      assert d.req + [] == d.req;
    } else if d.residue == 0 {
      OutStageCollects(d, ps[1..], accept);
    } else {
      OutStageCollects(OutData(d, ps[0], accept), ps[1..], accept);
      hide OutData;
      if |ps[0]| < d.residue {
        hide Collected;
        CollectMore(d, ps[0], Concat(ps[1..]), accept, OutStage(d, ps, accept));
      } else {
        CollectLast(d, ps[0], Concat(ps[1..]), accept);
      }
    }
  }

  /**
    However the host cuts its data into packets, the handler is called once and
    with exactly the announced bytes, as soon as they are all there; packets
    beyond them are absorbed; and one empty status packet answers an accepted
    request.
  */
  lemma OutTransferExact(d: Dev, wLength: nat, ps: seq<Packet>, accept: bool)
    requires 0 < wLength <= d.bufSize
    ensures var e, all := OutStage(SetupOut(d, wLength), ps, accept), Concat(ps);
      && e.handled == d.handled + (if wLength <= |all| then [all[..wLength]] else [])
      && e.out == d.out + (if wLength <= |all| && accept then [[]] else [])
      && e.stalls == d.stalls + (if wLength <= |all| && !accept then [0x80] else [])
  {
    hide OutStage;
    OutStageCollects(SetupOut(d, wLength), ps, accept);
    if wLength <= |Concat(ps)| {
      assert [] + Concat(ps)[..wLength] == Concat(ps)[..wLength];
    } else {
      assert d.handled + [] == d.handled && d.out + [] == d.out;
    }
  }

  // ----- refused requests -----

  /** The device says no by stalling: nothing is sent, no flag changes, and `asked` is passed to the handlers. */
  predicate Refuses(d: Dev, e: Dev, asked: seq<seq<byte>>, stalled: seq<nat>) {
    && e.stalls == d.stalls + stalled && e.out == d.out && e.handled == d.handled + asked
    && e.zero == d.zero && e.upper == d.upper
  }

  /**
    A request its handler refuses, in either direction, stalls endpoint 0x80 and
    nothing is sent; a packet that cannot be read stalls without asking anyone.
  */
  lemma RefusedStalls(d: Dev, wLength: nat, toHost: bool, setup: bool)
    requires toHost || wLength == 0
    ensures Refuses(d, SetupIn(d, wLength, toHost, Refused), [[]], [0x80])
    ensures Refuses(d, Unread(d, setup), [], if setup || d.residue == 0 then [0x80] else [0x80, 0])
  {
  }

  /** A setup that is not answered at once starts over with an empty buffer and waits for the announced bytes. */
  lemma SetupWaits(d: Dev, wLength: nat, toHost: bool, ps: seq<Packet>, accept: bool)
    requires toHost || (0 < wLength <= d.bufSize)
    ensures var d1 := if toHost then SetupIn(d, wLength, true, Refused) else SetupOut(d, wLength);
      var e, all := OutStage(d1, ps, accept), Concat(ps);
      && d1.src == []
      && e.handled == d1.handled + (if 0 < wLength <= |all| then [all[..wLength]] else [])
      && (wLength <= |all| ==> e.residue == 0)
      && (|all| < wLength ==> e.residue == wLength - |all| && e.req == all)
  {
    hide OutStage;
    var d1 := if toHost then SetupIn(d, wLength, true, Refused) else SetupOut(d, wLength);
    var all := Concat(ps);
    OutStageCollects(d1, ps, accept);
    assert [] + all == all;
    if wLength <= |all| { assert [] + all[..wLength] == all[..wLength]; }
    assert d1.handled + [] == d1.handled;
  }

  /**
    An announced length beyond the buffer stalls both directions.  The data that
    may follow reaches no handler if and only if no earlier transfer is still
    waiting for as much.
  */
  lemma TooLongStalls(d: Dev, wLength: nat, ps: seq<Packet>, accept: bool)
    requires d.bufSize < wLength
    ensures Refuses(d, SetupOut(d, wLength), [], [0x80, 0])
    ensures OutStage(SetupOut(d, wLength), ps, accept).handled == d.handled
      <==> d.residue == 0 || |Concat(ps)| < d.residue
  {
    hide OutStage;
    OutStageCollects(SetupOut(d, wLength), ps, accept);
  }

  /** The status packet is the last one, exactly if no zero-length flag was left by an earlier transfer. */
  lemma StatusStageEnds(d: Dev, wLength: nat, ps: seq<Packet>)
    requires 0 < wLength <= d.bufSize && wLength <= |Concat(ps)|
    ensures var e := OutStage(SetupOut(d, wLength), ps, true);
      InDone(e).out == e.out <==> !d.zero || d.upper
  {
    hide OutStage;
    OutStageCollects(SetupOut(d, wLength), ps, true);
  }

  /** An IN transfer that is cut short after its setup leaves the zero-length flag for the next one. */
  lemma AbortedInLeavesZero(d: Dev, data: seq<byte>)
    requires |data| == PACKET
    ensures SetupIn(d, PACKET + 1, true, Offered(data)).zero
  {
  }
}
