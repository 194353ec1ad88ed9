/**
  The host's side of the OTA protocol, and what a read achieves against it.

  A host sends frames; the link may cut its answer short anywhere.  A host is
  honest when every data frame the device would accept carries the image bytes
  that come next, when it says nothing after the last segment, and when it waits
  for a new request after a negotiation result.  Frames with a wrong sequence
  number, too much data or a wrong checksum are allowed, and so is a host that
  renegotiates in the middle of an answer.
*/
module OtaHost {
  import opened Basics
  import opened OtaBytes
  import opened OtaDevice

  datatype Frame =
    | Data(psn: byte, payload: seq<byte>)
    | DataCrc(psn: byte, crc: nat, payload: seq<byte>)
    | Upgrade(params: seq<Tlv>)
    | Connect
    | Result(code: byte)

  predicate ParamOk(t: Tlv) {
    && Fits(t)
    && (t.kind == TlvSupportFeatures ==> |t.value| == 1)
    && (t.kind == TlvOtaType ==> |t.value| == 4)
  }

  predicate ParamsOk(ts: seq<Tlv>) {
    ts == [] || (ParamOk(ts[0]) && ParamsOk(ts[1..]))
  }

  predicate WellFormed(f: Frame) {
    match f
    case Data(_, d) => |d| + 1 < 0x1_0000
    case DataCrc(_, k, d) => k < 0x1_0000_0000 && |d| + 5 < 0x1_0000
    case Upgrade(ts) => ParamsOk(ts) && |PackTlvs(ts)| < 0x1_0000
    case Connect => true
    case Result(_) => true
  }

  function Command(f: Frame): byte {
    match f
    case Data(_, _) => CmdSendImageData
    case DataCrc(_, _, _) => CmdSendImageDataCrc
    case Upgrade(_) => CmdRequestUpgrade
    case Connect => CmdConnectNegotiation
    case Result(_) => CmdNegotiationResult
  }

  function Params(f: Frame): (b: seq<byte>)
    requires WellFormed(f)
    ensures |b| < 0x1_0000
  {
    match f
    case Data(p, d) => [p] + d
    case DataCrc(p, k, d) => [p] + Le32(k) + d
    case Upgrade(ts) => PackTlvs(ts)
    case Connect => []
    case Result(code) => PackTlv(Tlv(1, [code]))
  }

  function Encode(f: Frame): (b: seq<byte>)
    requires WellFormed(f)
    ensures |b| == 5 + |Params(f)|
  {
    Head(Command(f), |Params(f)|) + Params(f)
  }

  ghost predicate AllWellFormed(fs: seq<Frame>) {
    forall f :: f in fs ==> WellFormed(f)
  }

  ghost function EncodeAll(fs: seq<Frame>): seq<byte>
    requires AllWellFormed(fs)
  {
    if fs == [] then [] else Encode(fs[0]) + EncodeAll(fs[1..])
  }

  predicate IsData(f: Frame) { f.Data? || f.DataCrc? }

  /** The device takes this data frame when `done` of `len` bytes are in and `psn` came last. */
  predicate Accepted(crc: Crc, f: Frame, len: nat, done: nat, psn: byte)
    requires IsData(f) && done <= len
  {
    && f.psn == (psn + 1) % 256 && |f.payload| <= len - done
    && (f.DataCrc? ==> crc(f.payload) == f.crc)
  }

  ghost predicate Faithful(crc: Crc, img: seq<byte>, fs: seq<Frame>, off: nat, len: nat, done: nat, psn: byte)
    requires off + len <= |img| && done <= len
    decreases |fs|
  {
    if done == len then fs == []
    else if fs == [] then true
    else
      var f := fs[0];
      if f.Result? then |fs| == 1
      else if !IsData(f) then Faithful(crc, img, fs[1..], off, len, done, psn)
      else Accepted(crc, f, len, done, psn) ==>
        && f.payload == img[off + done..off + done + |f.payload|]
        && Faithful(crc, img, fs[1..], off, len, done + |f.payload|, f.psn)
  }

  ghost predicate CutFrom(b: seq<byte>, fs: seq<Frame>) {
    AllWellFormed(fs) && b <= EncodeAll(fs)
  }

  ghost predicate HonestReply(crc: Crc, img: seq<byte>, b: seq<byte>, off: nat, len: nat)
    requires off + len <= |img|
  {
    exists fs :: CutFrom(b, fs) && Faithful(crc, img, fs, off, len, 0, 0xff)
  }

  /** The reply `b` is honest for the range a host reads out of the request `q`. */
  ghost predicate HonestTo(crc: Crc, img: seq<byte>, q: seq<byte>, b: seq<byte>) {
    match ReadRequest(q)
    case None => true
    case Some((off, len)) => off + len <= |img| ==> HonestReply(crc, img, b, off, len)
  }

  /** Every answer is honest for whatever range the device asks for. */
  ghost predicate HonestHost(crc: Crc, img: seq<byte>, script: seq<Answer>)
    requires |img| < 0x8000_0000
  {
    forall k, q :: 0 <= k < |script| && script[k].Reply? ==> HonestTo(crc, img, q, script[k].to(q))
  }

  /** The numbers of the protocol: service 9, the command, main type 0x80. */
  lemma FrameNumbers(f: Frame)
    requires WellFormed(f)
    ensures Encode(f)[..3] == [9, match f
      case Upgrade(_) => 1
      case Connect => 2
      case Data(_, _) => 4
      case Result(_) => 9
      case DataCrc(_, _, _) => 11, 0x80]
    ensures FromLe16(Encode(f)[3..5]) == |Encode(f)| - 5
  {
    assert Encode(f)[3..5] == Le16(|Params(f)|);
    Le16RoundTrip(|Params(f)|);
  }

  // ----- the device reads back what the host encodes -----

  lemma GetFront(a: seq<byte>, b: seq<byte>)
    ensures Get(a + b, |a|) == (true, a, b)
  {
    assert (a + b)[..|a|] == a && (a + b)[|a|..] == b;
  }

  lemma HeadRead(f: Frame, tail: seq<byte>)
    requires WellFormed(f)
    ensures var h := Get(Encode(f) + tail, 5);
      && h.0 && h.1[0] == ServiceOta && h.1[1] == Command(f) && h.1[2] == TypeMain
      && FromLe16(h.1[3..]) == |Params(f)| && h.2 == Params(f) + tail
  {
    hide Command, Params, FromLe16;
    var b := Encode(f) + tail;
    assert b[..5] == Head(Command(f), |Params(f)|);
    assert b[..5][3..] == Le16(|Params(f)|);
    Le16RoundTrip(|Params(f)|);
    assert b[5..] == Params(f) + tail;
  }

  function Stored(c: Ctx, f: Frame, tail: seq<byte>): Ctx
    requires IsData(f) && c.Valid() && |f.payload| <= c.len - c.done
  {
    c.(rx := tail, mem := Patch(c.mem, c.base + c.done, f.payload),
       done := c.done + |f.payload|, psn := f.psn, idle := true)
  }

  /** The second half of the data handler, on a complete payload. */
  lemma StoreRead(crc: Crc, c: Ctx, psn: byte, want: Option<nat>, d: seq<byte>, tail: seq<byte>)
    requires c.Valid() && c.rx == d + tail
    ensures var r := StoreSegment(crc, c, psn, want, |d|);
      if |d| <= c.len - c.done && (want.Some? ==> crc(d) == want.value)
      then r == (c.(rx := tail, mem := Patch(c.mem, c.base + c.done, d),
                    done := c.done + |d|, psn := psn, idle := true), true)
      else !r.1
  {
    if |d| <= c.len - c.done {
      assert c.rx[..|d|] == d && c.rx[|d|..] == tail;
    }
  }

  /** The data handler on a complete frame, without and with a checksum. */
  lemma PlainRead(crc: Crc, c: Ctx, p: byte, d: seq<byte>, tail: seq<byte>)
    requires c.Valid() && c.len != 0 && c.rx == [p] + d + tail && |d| + 1 < 0x1_0000
    ensures var f, r := Data(p, d), ImageData(crc, c, |d| + 1, false);
      if Accepted(crc, f, c.len, c.done, c.psn) then r == (Stored(c, f, tail), true) else !r.1
  {
    assert c.rx[..1] == [p] && c.rx[1..] == d + tail;
    StoreRead(crc, c.(rx := d + tail), p, None, d, tail);
  }

  lemma CheckedRead(crc: Crc, c: Ctx, p: byte, k: nat, key: seq<byte>, d: seq<byte>, tail: seq<byte>)
    requires c.Valid() && c.len != 0 && |key| == 4 && FromLe32(key) == k && |d| + 5 < 0x1_0000
    requires c.rx == [p] + (key + (d + tail))
    ensures var f, r := DataCrc(p, k, d), ImageData(crc, c, |d| + 5, true);
      if Accepted(crc, f, c.len, c.done, c.psn) then r == (Stored(c, f, tail), true) else !r.1
  {
    GetFront([p], key + (d + tail));
    GetFront(key, d + tail);
    StoreRead(crc, c.(rx := d + tail), p, Some(k), d, tail);
  }

  /** The dispatcher hands the parameters of a complete frame to its handler. */
  lemma Dispatched(crc: Crc, c: Ctx, f: Frame, tail: seq<byte>, processed: nat)
    requires WellFormed(f) && c.Valid() && c.idle && c.rx == Encode(f) + tail
    ensures var c1, n, r := c.(rx := Params(f) + tail, idle := false), |Params(f)|, Process(crc, c, processed);
      && r.2 == Command(f)
      && (IsData(f) ==> (r.0, r.1) == ImageData(crc, c1, n, f.DataCrc?))
      && (f.Upgrade? ==> (r.0, r.1) == RequestUpgrade(c1, n))
      && (f.Result? ==> (r.0, r.1) == NegotiationResult(c1))
      && (f.Connect? ==> (r.0, r.1) == (c1.(idle := true), true))
  {
    HeadRead(f, tail);
  }

  lemma PlainParams(f: Frame, tail: seq<byte>)
    requires f.Data? && WellFormed(f)
    ensures Params(f) + tail == [f.psn] + f.payload + tail && |Params(f)| == |f.payload| + 1
  {
  }

  lemma CheckedParams(f: Frame, tail: seq<byte>)
    requires f.DataCrc? && WellFormed(f)
    ensures |Le32(f.crc)| == 4 && FromLe32(Le32(f.crc)) == f.crc && |Params(f)| == |f.payload| + 5
    ensures Params(f) + tail == [f.psn] + (Le32(f.crc) + (f.payload + tail))
  {
    Le32RoundTrip(f.crc);
    hide Le32, FromLe32;
  }

  lemma DataFrameRead(crc: Crc, c: Ctx, f: Frame, tail: seq<byte>, processed: nat)
    requires IsData(f) && WellFormed(f) && c.Valid() && c.idle && c.len != 0 && c.rx == Encode(f) + tail
    ensures var r := Process(crc, c, processed);
      if Accepted(crc, f, c.len, c.done, c.psn)
      then r == (Stored(c, f, tail), true, Command(f) as nat) else !r.1
  {
    hide Process, ImageData, Accepted, Encode, Params, Le32, FromLe32, Patch;
    Dispatched(crc, c, f, tail, processed);
    var c1 := c.(rx := Params(f) + tail, idle := false);
    if f.Data? {
      PlainParams(f, tail);
      PlainRead(crc, c1, f.psn, f.payload, tail);
    } else {
      CheckedParams(f, tail);
      CheckedRead(crc, c1, f.psn, f.crc, Le32(f.crc), f.payload, tail);
    }
  }

  lemma ParamStep(c: Ctx, t: Tlv, rest: seq<byte>, left: nat)
    requires ParamOk(t) && 3 + |t.value| <= left < 0x1_0000 && c.rx == PackTlv(t) + rest
    ensures OneParam(c, left) == (NoteParam(c, t.kind, t.value, rest), true, left - 3 - |t.value|)
  {
    hide NoteParam, FromLe16, FromLe32;
    var front := [t.kind] + Le16(|t.value|);
    assert c.rx == front + (t.value + rest);
    GetFront(front, t.value + rest);
    GetFront(t.value, rest);
    assert front[1..] == Le16(|t.value|);
    Le16RoundTrip(|t.value|);
  }

  /** The value of the last parameter of a kind. */
  function LastValue(ts: seq<Tlv>, kind: byte): (r: Option<seq<byte>>)
    requires ParamsOk(ts)
    ensures r.Some? && kind == 9 ==> |r.value| == 1
    ensures r.Some? && kind == 10 ==> |r.value| == 4
  {
    if ts == [] then None
    else match LastValue(ts[1..], kind)
      case Some(v) => Some(v)
      case None => if ts[0].kind == kind then Some(ts[0].value) else None
  }

  lemma {:induction false} ParamsRead(c: Ctx, ts: seq<Tlv>, tail: seq<byte>)
    requires ParamsOk(ts) && |PackTlvs(ts)| < 0x1_0000 && c.rx == PackTlvs(ts) + tail
    ensures var r := UpgradeParams(c, |PackTlvs(ts)|);
      && r.1 && r.0.rx == tail
      && r.0.features == (match LastValue(ts, 9) case Some(v) => v[0] case None => c.features)
      && r.0.otaType == (match LastValue(ts, 10) case Some(v) => FromLe32(v) case None => c.otaType)
    decreases |ts|
  {
    if ts == [] {
      assert c.rx == tail;
    } else {
      hide FromLe32;
      var rest := PackTlvs(ts[1..]) + tail;
      assert c.rx == PackTlv(ts[0]) + rest;
      ParamStep(c, ts[0], rest, |PackTlvs(ts)|);
      ParamsRead(NoteParam(c, ts[0].kind, ts[0].value, rest), ts[1..], tail);
    }
  }

  /**
    A negotiation frame goes by without touching the transfer.  An upgrade request
    leaves the features and the type it names last, or none; a result ends the
    negotiation.
  */
  lemma OtherFrameRead(crc: Crc, c: Ctx, f: Frame, tail: seq<byte>, processed: nat)
    requires !IsData(f) && WellFormed(f) && c.Valid() && c.idle && c.rx == Encode(f) + tail
    ensures var r := Process(crc, c, processed);
      && r.1 && r.2 == Command(f) && r.0.rx == tail && r.0.idle
      && r.0 == c.(rx := tail, features := r.0.features, otaType := r.0.otaType, negotiated := r.0.negotiated)
      && r.0.negotiated == (c.negotiated || f.Result?)
      && (f.Upgrade? ==>
            && r.0.features == (match LastValue(f.params, 9) case Some(v) => v[0] case None => 0)
            && r.0.otaType == (match LastValue(f.params, 10) case Some(v) => FromLe32(v) case None => 0))
      && (!f.Upgrade? ==> r.0.features == c.features && r.0.otaType == c.otaType)
  {
    hide Process, LastValue, FromLe32;
    Dispatched(crc, c, f, tail, processed);
    var c1 := c.(rx := Params(f) + tail, idle := false);
    match f {
      case Upgrade(ts) =>
        ParamsRead(c1.(features := 0, otaType := 0), ts, tail);
      case Connect =>
        assert Params(f) + tail == tail;
      case Result(code) =>
        assert c1.rx[..3] == [1] + Le16(1);
        assert c1.rx[..3][1..] == Le16(1);
        Le16RoundTrip(1);
        assert c1.rx[3..] == [code] + tail;
        assert c1.rx[3..][..1] == [code] && c1.rx[3..][1..] == tail;
    }
  }

  // ----- an answer cut inside a frame is an error -----

  lemma ParamStepCut(c: Ctx, t: Tlv, left: nat)
    requires ParamOk(t) && 0 < left < 0x1_0000 && c.rx < PackTlv(t)
    ensures !OneParam(c, left).1 && OneParam(c, left).0.rx == []
  {
    if 3 <= |c.rx| {
      assert c.rx[..3][1..] == PackTlv(t)[1..3] == Le16(|t.value|);
      Le16RoundTrip(|t.value|);
      assert c.rx[..3][0] == t.kind;
    }
  }

  lemma {:induction false} ParamsCut(c: Ctx, ts: seq<Tlv>)
    requires ParamsOk(ts) && |PackTlvs(ts)| < 0x1_0000 && c.rx < PackTlvs(ts)
    ensures !UpgradeParams(c, |PackTlvs(ts)|).1 && UpgradeParams(c, |PackTlvs(ts)|).0.rx == []
    decreases |ts|
  {
    hide OneParam;
    var front, more := PackTlv(ts[0]), PackTlvs(ts[1..]);
    if |c.rx| < |front| {
      assert c.rx == (front + more)[..|c.rx|] == front[..|c.rx|];
      ParamStepCut(c, ts[0], |PackTlvs(ts)|);
    } else {
      var rest := c.rx[|front|..];
      assert c.rx == (front + more)[..|c.rx|];
      assert c.rx == front + rest && rest == more[..|rest|];
      ParamStep(c, ts[0], rest, |PackTlvs(ts)|);
      ParamsCut(NoteParam(c, ts[0].kind, ts[0].value, rest), ts[1..]);
    }
  }

  lemma ImageCut(crc: Crc, c: Ctx, f: Frame)
    requires IsData(f) && WellFormed(f) && c.Valid() && c.rx < Params(f)
    ensures !ImageData(crc, c, |Params(f)|, f.DataCrc?).1
    ensures Welcome(c, f) ==> ImageData(crc, c, |Params(f)|, f.DataCrc?).0.rx == []
  {
    hide FromLe32, Le32, Patch;
    if c.rx != [] { assert c.rx[0] == Params(f)[0] == f.psn; }
  }

  /** A data frame with the next packet number and room for its payload. */
  predicate Welcome(c: Ctx, f: Frame) {
    IsData(f) ==> c.len != 0 && f.psn as int == (c.psn as int + 1) % 256 && |f.payload| <= c.len - c.done
  }

  lemma ResultCut(c: Ctx, code: byte)
    requires c.rx < Params(Result(code))
    ensures !NegotiationResult(c).1 && NegotiationResult(c).0.rx == []
  {
    if |c.rx| == 3 {
      assert c.rx[..3][1..] == Params(Result(code))[1..3] == Le16(1);
      Le16RoundTrip(1);
    }
  }

  /** And unless it was unwelcome anyway, nothing of it stays in the link. */
  lemma CutFrameFails(crc: Crc, c: Ctx, f: Frame, processed: nat)
    requires WellFormed(f) && c.Valid() && c.rx < Encode(f)
    ensures !Process(crc, c, processed).1
    ensures c.idle && Welcome(c, f) ==> Process(crc, c, processed).0.rx == []
  {
    hide OneParam, UpgradeParams, ImageData, NegotiationResult, LastValue, PackTlvs, Le16, Le32, FromLe32;
    if 5 <= |c.rx| && c.idle {
      var ps, e := Params(f), Encode(f);
      HeadRead(f, []);
      assert e + [] == e;
      assert c.rx[..5] == e[..5];
      assert e[5..] == ps;
      var c1 := c.(rx := c.rx[5..], idle := false);
      assert c1.rx < ps;
      match f {
        case Upgrade(ts) => ParamsCut(c1.(features := 0, otaType := 0), ts);
        case Connect =>
        case Result(code) => ResultCut(c1, code);
        case Data(p, d) => ImageCut(crc, c1, f);
        case DataCrc(p, k, d) => ImageCut(crc, c1, f);
      }
    }
  }
}
