/**
  The device side of the OTA protocol as functions on values: one function per
  command handler, the command dispatcher, and the read operation with its
  renegotiation restart and its single drained retry.  The class in OtaBackend
  is proved against these functions.
*/
module OtaDevice {
  import opened Basics
  import opened OtaBytes

  type Crc = seq<byte> -> nat

  /** How the link treats one image request: the send fails, or the bytes a host sends back for it. */
  datatype Answer = SendFails | Reply(to: seq<byte> -> seq<byte>)

  /**
    svc_prot_context together with the memory it writes and the link.
    `rx` holds the bytes received and not yet read; each image request appends
    the bytes of the next answer in `script`; when `script` is empty the host
    is silent for good.
  */
  datatype Ctx = Ctx(
    idle: bool, negotiated: bool, features: byte, otaType: nat,
    base: nat, len: nat, done: nat, psn: byte,
    mem: seq<byte>, rx: seq<byte>, script: seq<Answer>)
  {
    /** The window of the current request lies in memory and is not overrun. */
    predicate Valid() {
      base + len <= |mem| && done <= len
    }
  }

  /** svc_prot_get_rx_data: all `n` bytes, or an error after taking what was there. */
  function Get(rx: seq<byte>, n: nat): (r: (bool, seq<byte>, seq<byte>))
    ensures r.0 <==> n <= |rx|
    ensures r.0 ==> |r.1| == n && |r.2| == |rx| - n
    ensures !r.0 ==> r.1 == rx && r.2 == []
  {
    if n <= |rx| then (true, rx[..n], rx[n..]) else (false, rx, [])
  }

  function Patch(mem: seq<byte>, at: nat, data: seq<byte>): (r: seq<byte>)
    requires at + |data| <= |mem|
    ensures |r| == |mem|
  {
    mem[..at] + data + mem[at + |data|..]
  }

  /** What a command handler may do to the context. */
  ghost predicate Tame(c: Ctx, c': Ctx) {
    && c'.Valid() && c'.base == c.base && c'.len == c.len && c'.script == c.script
    && (c.negotiated ==> c'.negotiated) && |c'.rx| <= |c.rx| && |c'.mem| == |c.mem|
  }

  /** The second half of ota_cmd_h2d_send_image_data: `left` parameter bytes are still announced. */
  function StoreSegment(crc: Crc, c: Ctx, psn: byte, want: Option<nat>, left: nat): (r: (Ctx, bool))
    requires c.Valid()
    ensures Tame(c, r.0) && (r.1 ==> r.0.idle)
  {
    var seg := Min(c.len - c.done, left);
    var d := Get(c.rx, seg);
    var c1 := c.(rx := d.2, mem := Patch(c.mem, c.base + c.done, d.1));
    if !d.0 then (c1, false)
    else if (want.Some? && crc(d.1) != want.value) || seg != left then (c1, false)
    else (c1.(done := c.done + seg, psn := psn, idle := true), true)
  }

  /**
    ota_cmd_h2d_send_image_data.  Lengths are 16-bit and wrap, as in the source:
    a CRC command shorter than five bytes asks for almost 64 KiB.  Data is
    stored as it comes and before it is checked, so a rejected or incomplete
    segment may still have been written, always inside the window.
  */
  function ImageData(crc: Crc, c: Ctx, paramLen: nat, withCrc: bool): (r: (Ctx, bool))
    requires c.Valid() && paramLen < 0x1_0000
    ensures Tame(c, r.0) && (r.1 ==> r.0.idle)
  {
    if c.len == 0 || paramLen < 1 then (c, false)
    else
      var p := Get(c.rx, 1);
      if !p.0 then (c.(rx := []), false)
      else
        var psn := p.1[0];
        var next := (c.psn + 1) % 256;
        if psn != next then (c.(rx := p.2), false)
        else if !withCrc then StoreSegment(crc, c.(rx := p.2), psn, None, paramLen - 1)
        else
          var k := Get(p.2, 4);
          if !k.0 then (c.(rx := []), false)
          else StoreSegment(crc, c.(rx := k.2), psn, Some(FromLe32(k.1)), (paramLen - 5) % 0x1_0000)
  }

  /** How many value bytes the parameter loop reads: fixed for the two known types. */
  function ValueSize(kind: byte, announced: nat): nat {
    if kind == TlvSupportFeatures then 1 else if kind == TlvOtaType then 4 else announced
  }

  function NoteParam(c: Ctx, kind: byte, value: seq<byte>, rest: seq<byte>): (r: Ctx)
    requires kind == TlvSupportFeatures ==> |value| == 1
    requires kind == TlvOtaType ==> |value| == 4
    ensures r == c.(features := r.features, otaType := r.otaType, rx := rest)
  {
    if kind == TlvSupportFeatures then c.(features := value[0], rx := rest)
    else if kind == TlvOtaType then c.(otaType := FromLe32(value), rx := rest)
    else c.(rx := rest)
  }

  /** One round of the parameter loop: the context, success, and the 16-bit count left. */
  function OneParam(c: Ctx, left: nat): (r: (Ctx, bool, nat))
    requires left < 0x1_0000
    ensures r.0 == c.(features := r.0.features, otaType := r.0.otaType, rx := r.0.rx)
    ensures |r.0.rx| <= |c.rx| && (r.1 ==> |r.0.rx| < |c.rx|) && r.2 < 0x1_0000
  {
    var h := Get(c.rx, 3);
    if !h.0 then (c.(rx := []), false, 0)
    else
      var kind, n := h.1[0], FromLe16(h.1[1..]);
      var v := Get(h.2, ValueSize(kind, n));
      if !v.0 then (c.(rx := []), false, 0)
      else (NoteParam(c, kind, v.1, v.2), true, (left - 3 - n) % 0x1_0000)
  }

  /** The parameter loop of ota_cmd_h2d_request_upgrade; `left` is the 16-bit param_size. */
  function UpgradeParams(c: Ctx, left: nat): (r: (Ctx, bool))
    requires left < 0x1_0000
    ensures r.0 == c.(features := r.0.features, otaType := r.0.otaType, rx := r.0.rx)
    ensures |r.0.rx| <= |c.rx|
    decreases |c.rx|
  {
    if left == 0 then (c, true)
    else
      var s := OneParam(c, left);
      if s.1 then UpgradeParams(s.0, s.2) else (s.0, false)
  }

  /** ota_cmd_h2d_request_upgrade. */
  function RequestUpgrade(c: Ctx, paramLen: nat): (r: (Ctx, bool))
    requires paramLen < 0x1_0000
    ensures r.0 == c.(features := r.0.features, otaType := r.0.otaType, rx := r.0.rx, idle := r.0.idle)
    ensures |r.0.rx| <= |c.rx| && (r.1 ==> r.0.idle)
  {
    var u := UpgradeParams(c.(features := 0, otaType := 0), paramLen);
    if u.1 then (u.0.(idle := true), true) else u
  }

  /** ota_cmd_h2d_negotiation_result: at most one value byte is taken, whatever length is announced. */
  function NegotiationResult(c: Ctx): (r: (Ctx, bool))
    ensures r.0 == c.(rx := r.0.rx, idle := r.0.idle, negotiated := r.0.negotiated)
    ensures |r.0.rx| <= |c.rx| && (r.1 ==> r.0.idle && r.0.negotiated) && (c.negotiated ==> r.0.negotiated)
  {
    var h := Get(c.rx, 3);
    if !h.0 then (c.(rx := []), false)
    else
      var v := Get(h.2, Min(FromLe16(h.1[1..]), 1));
      if !v.0 then (c.(rx := []), false)
      else if h.1[0] != 1 then (c.(rx := v.2), false)
      else (c.(rx := v.2, idle := true, negotiated := true), true)
  }

  /**
    process_command.  Returns the context, whether it succeeded and the value
    left in *processed_cmd, which an unknown command does not touch; an unknown
    command is otherwise ignored without skipping its parameters.
  */
  function Process(crc: Crc, c: Ctx, processed: nat): (r: (Ctx, bool, nat))
    requires c.Valid()
    ensures Tame(c, r.0)
    ensures r.1 ==> r.0.idle && |r.0.rx| + 5 <= |c.rx|
  {
    if !c.idle then (c, false, processed)
    else
      var h := Get(c.rx, 5);
      if !h.0 then (c.(rx := []), false, processed)
      else
        var c1 := c.(rx := h.2, idle := false);
        var cmd, paramLen := h.1[1], FromLe16(h.1[3..]);
        if h.1[0] != ServiceOta || h.1[2] != TypeMain then (c1, false, processed)
        else if cmd == CmdRequestUpgrade then
          var x := RequestUpgrade(c1, paramLen); (x.0, x.1, cmd)
        else if cmd == CmdConnectNegotiation then (c1.(idle := true), true, cmd)
        else if cmd == CmdNegotiationResult then
          var x := NegotiationResult(c1); (x.0, x.1, cmd)
        else if cmd == CmdSendImageData then
          var x := ImageData(crc, c1, paramLen, false); (x.0, x.1, cmd)
        else if cmd == CmdSendImageDataCrc then
          var x := ImageData(crc, c1, paramLen, true); (x.0, x.1, cmd)
        else (c1.(idle := true), true, processed)
  }

  /** ota_cmd_require_image_data: open a window of `size` bytes at `at` and send the request. */
  function Require(c: Ctx, off: nat, at: nat, size: nat): (r: (Ctx, bool))
    requires off < 0x1_0000_0000 && size < 0x1_0000_0000 && at + size <= |c.mem|
    ensures r.0.mem == c.mem && (r.1 ==> r.0.Valid() && r.0.base == at && r.0.len == size && r.0.done == 0)
    ensures r.0.negotiated == c.negotiated
    ensures |r.0.script| <= |c.script| && (|r.0.script| == |c.script| ==> r.0.rx == c.rx)
  {
    if !c.negotiated then (c, false)
    else
      var c1 := c.(base := at, len := size, done := 0, psn := 0xff);
      if c.script == [] then (c1.(idle := true), true)
      else match c.script[0]
        case SendFails => (c1.(script := c.script[1..]), false)
        case Reply(f) =>
          (c1.(script := c.script[1..], rx := c.rx + f(RequestBytes(off, size)), idle := true), true)
  }

  predicate InRange(c: Ctx, off: nat, at: nat, size: nat) {
    off + size < 0x8000_0000 && at + size <= |c.mem|
  }

  /** ota_backend_bt_read from the label try_again. */
  function TryAgain(crc: Crc, c: Ctx, off: nat, at: nat, size: nat, retried: bool, processed: nat): (r: (Ctx, bool))
    requires InRange(c, off, at, size)
    ensures |r.0.mem| == |c.mem|
    decreases if retried then 0 else 1, |c.script|, |c.rx|, 1
  {
    var q := Require(c, off, at, size);
    if !q.1 then (q.0, false) else Loop(crc, q.0, off, size, retried, processed)
  }

  /** The command loop of ota_backend_bt_read, with the restarts that leave it. */
  function Loop(crc: Crc, c: Ctx, off: nat, size: nat, retried: bool, processed: nat): (r: (Ctx, bool))
    requires c.Valid() && c.len == size && InRange(c, off, c.base, size)
    ensures |r.0.mem| == |c.mem|
    decreases if retried then 0 else 1, |c.script|, |c.rx|, 0
  {
    if c.done == size then (c, true)
    else
      var p := Process(crc, c, processed);
      var c1 := p.0;
      if !p.1 then
        if retried then (c1, false)
        else TryAgain(crc, c1.(rx := [], idle := true), off, c.base, size, true, p.2)
      else if p.2 == CmdNegotiationResult then
        TryAgain(crc, c1, off + c1.done, c.base + c1.done, size - c1.done, retried, p.2)
      else Loop(crc, c1, off, size, retried, p.2)
  }

  /** ota_backend_bt_read; `garbage` is the uninitialised processed_cmd on its stack. */
  function Read(crc: Crc, c: Ctx, off: nat, at: nat, size: nat, garbage: nat): (r: (Ctx, bool))
    requires InRange(c, off, at, size)
    ensures |r.0.mem| == |c.mem|
  {
    TryAgain(crc, c, off, at, size, false, garbage)
  }

  /** Before the negotiation has ended a read fails at once and touches nothing; after it each request asks the host. */
  lemma NegotiationFirst(crc: Crc, c: Ctx, off: nat, at: nat, size: nat, garbage: nat)
    requires InRange(c, off, at, size)
    ensures !c.negotiated ==> Read(crc, c, off, at, size, garbage) == (c, false)
    ensures c.negotiated && c.script != [] ==> Require(c, off, at, size).0.script == c.script[1..]
  {
    hide Loop;
  }

  // ----- odd frames -----

  /**
    The segment a data command takes: its parameters less the packet number and
    the checksum, in 16 bits, so that a checksum command of one to four bytes
    asks for 65532 to 65535.
  */
  function SegmentOf(paramLen: nat, withCrc: bool): int {
    if !withCrc then paramLen - 1 else if 5 <= paramLen then paramLen - 5 else paramLen + 65531
  }

  lemma SegmentLength(crc: Crc, c: Ctx, paramLen: nat, withCrc: bool)
    requires c.Valid() && paramLen < 0x1_0000
    ensures var r := ImageData(crc, c, paramLen, withCrc);
      && (r.1 ==> c.len != 0 && 1 <= paramLen && c.rx != [] && c.rx[0] as int == (c.psn as int + 1) % 256)
      && (r.1 ==> r.0.done == c.done + SegmentOf(paramLen, withCrc))
      && (c.len != 0 && 1 <= paramLen && c.rx != [] && c.rx[0] as int != (c.psn as int + 1) % 256
          ==> r == (c.(rx := c.rx[1..]), false))
  {
    hide Patch;
  }

  /** A negotiation result is taken with one value byte, or none if it announces none, and only under type 1. */
  lemma ResultTaken(c: Ctx)
    requires 4 <= |c.rx|
    ensures var r := NegotiationResult(c);
      && (r.1 <==> c.rx[0] == 1)
      && r.0.rx == (if c.rx[1] == 0 && c.rx[2] == 0 then c.rx[3..] else c.rx[4..])
      && r.0.negotiated == (c.negotiated || c.rx[0] == 1)
  {
    var h := c.rx[..3];
    assert h[1..] == [c.rx[1], c.rx[2]];
    assert c.rx[3..][1..] == c.rx[4..] && c.rx[3..][0..] == c.rx[3..];
  }

  /** Five bytes of another service or type are an error; an unknown command is passed over, its parameters are not. */
  lemma HeaderTaken(crc: Crc, c: Ctx, processed: nat)
    requires c.Valid() && c.idle && 5 <= |c.rx|
    ensures var r := Process(crc, c, processed);
      && (c.rx[0] != 9 || c.rx[2] != 0x80 ==> r == (c.(rx := c.rx[5..], idle := false), false, processed))
      && (c.rx[0] == 9 && c.rx[2] == 0x80 && c.rx[1] !in {1, 2, 4, 9, 11} ==>
            r == (c.(rx := c.rx[5..]), true, processed))
  {
    hide RequestUpgrade, NegotiationResult, ImageData, FromLe16;
  }

  // ----- whatever the host sends, only the caller's buffer is written -----

  /** The two memories agree outside [lo, hi). */
  ghost predicate Untouched(m: seq<byte>, m': seq<byte>, lo: int, hi: int) {
    |m| == |m'| && forall i :: 0 <= i < |m| && !(lo <= i < hi) ==> m'[i] == m[i]
  }

  lemma PatchInside(mem: seq<byte>, at: nat, data: seq<byte>, lo: nat, hi: nat)
    requires lo <= at && at + |data| <= hi <= |mem|
    ensures Untouched(mem, Patch(mem, at, data), lo, hi)
  {
  }

  lemma StoreInside(crc: Crc, c: Ctx, psn: byte, want: Option<nat>, left: nat)
    requires c.Valid()
    ensures Untouched(c.mem, StoreSegment(crc, c, psn, want, left).0.mem, c.base, c.base + c.len)
  {
    hide Patch;
    hide Untouched;
    var seg := Min(c.len - c.done, left);
    PatchInside(c.mem, c.base + c.done, Get(c.rx, seg).1, c.base, c.base + c.len);
  }

  lemma ImageDataInside(crc: Crc, c: Ctx, paramLen: nat, withCrc: bool)
    requires c.Valid() && paramLen < 0x1_0000
    ensures Untouched(c.mem, ImageData(crc, c, paramLen, withCrc).0.mem, c.base, c.base + c.len)
  {
    hide StoreSegment, Untouched, FromLe32;
    SameUntouched(c.mem, c.base, c.base + c.len);
    if c.len != 0 && 1 <= paramLen && 1 <= |c.rx| {
      var c1 := c.(rx := c.rx[1..]);
      var next := (c.psn + 1) % 256;
      if !withCrc {
        StoreInside(crc, c1, next, None, paramLen - 1);
      } else if 4 <= |c1.rx| {
        StoreInside(crc, c.(rx := c1.rx[4..]), next, Some(FromLe32(c1.rx[..4])), (paramLen - 5) % 0x1_0000);
      }
    }
  }

  lemma SameUntouched(m: seq<byte>, lo: int, hi: int)
    ensures Untouched(m, m, lo, hi)
  {
  }

  lemma ProcessInside(crc: Crc, c: Ctx, processed: nat)
    requires c.Valid()
    ensures Untouched(c.mem, Process(crc, c, processed).0.mem, c.base, c.base + c.len)
  {
    hide ImageData;
    if c.idle && 5 <= |c.rx| {
      var c1, n := c.(rx := c.rx[5..], idle := false), FromLe16(c.rx[..5][3..]);
      ImageDataInside(crc, c1, n, false);
      ImageDataInside(crc, c1, n, true);
    }
  }

  lemma {:induction false} TryAgainInside(crc: Crc, c: Ctx, off: nat, at: nat, size: nat, retried: bool, processed: nat)
    requires InRange(c, off, at, size)
    ensures Untouched(c.mem, TryAgain(crc, c, off, at, size, retried, processed).0.mem, at, at + size)
    decreases if retried then 0 else 1, |c.script|, |c.rx|, 1
  {
    var q := Require(c, off, at, size);
    if q.1 { LoopInside(crc, q.0, off, size, retried, processed); }
  }

  lemma {:induction false} LoopInside(crc: Crc, c: Ctx, off: nat, size: nat, retried: bool, processed: nat)
    requires c.Valid() && c.len == size && InRange(c, off, c.base, size)
    ensures Untouched(c.mem, Loop(crc, c, off, size, retried, processed).0.mem, c.base, c.base + size)
    decreases if retried then 0 else 1, |c.script|, |c.rx|, 0
  {
    hide Process;
    if c.done != size {
      var p := Process(crc, c, processed);
      ProcessInside(crc, c, processed);
      if !p.1 {
        if !retried { TryAgainInside(crc, p.0.(rx := [], idle := true), off, c.base, size, true, p.2); }
      } else if p.2 == CmdNegotiationResult {
        var n := p.0.done;
        TryAgainInside(crc, p.0, off + n, c.base + n, size - n, retried, p.2);
      } else {
        LoopInside(crc, p.0, off, size, retried, p.2);
      }
    }
  }

  /** No write of a read leaves the caller's buffer, whatever bytes the host sends. */
  lemma ReadInside(crc: Crc, c: Ctx, off: nat, at: nat, size: nat, garbage: nat)
    requires InRange(c, off, at, size)
    ensures Untouched(c.mem, Read(crc, c, off, at, size, garbage).0.mem, at, at + size)
  {
    TryAgainInside(crc, c, off, at, size, false, garbage);
  }
}
