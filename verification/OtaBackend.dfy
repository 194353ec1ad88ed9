/**
  The OTA Bluetooth backend as it runs: an object whose fields the command
  handlers update and whose read operation writes the caller's buffer.  Every
  method is proved to do what the function of the same name in OtaDevice says.
*/
module OtaBackend {
  import opened Basics
  import opened OtaBytes
  import D = OtaDevice

  class Backend {
    const crc: D.Crc
    var idle: bool
    var negotiated: bool
    var features: byte
    var otaType: nat
    var readBuf: array<byte>
    var base: nat
    var len: nat
    var done: nat
    var psn: byte
    var rx: seq<byte>
    var script: seq<D.Answer>

    ghost function View(): D.Ctx
      reads this, readBuf
    {
      D.Ctx(idle, negotiated, features, otaType, base, len, done, psn, readBuf[..], rx, script)
    }

    constructor (crc: D.Crc, script: seq<D.Answer>, buf: array<byte>)
      ensures View() == D.Ctx(true, false, 0, 0, 0, 0, 0, 0, buf[..], [], script)
      ensures this.crc == crc && readBuf == buf
    {
      this.crc := crc;
      idle, negotiated, features, otaType := true, false, 0, 0;
      base, len, done, psn := 0, 0, 0, 0;
      readBuf, rx, this.script := buf, [], script;
    }

    /** svc_prot_get_rx_data: the stream may hand the bytes over in pieces of any size. */
    method GetRxData(n: nat) returns (ok: bool, data: seq<byte>)
      modifies this`rx
      ensures (ok, data, rx) == D.Get(old(rx), n)
    {
      data := [];
      while |data| < n && rx != []
        invariant |data| <= n && data + rx == old(rx)
      {
        var k :| 0 < k <= |rx| && |data| + k <= n;
        data, rx := data + rx[..k], rx[k..];
      }
      ok := |data| == n;
      if ok {
        assert old(rx)[..n] == data && old(rx)[n..] == rx;
      } else {
        assert data + rx == data;
      }
    }

    /** svc_prot_skip_rx_data, byte by byte. */
    method SkipRxData(n: nat) returns (ok: bool)
      modifies this`rx
      ensures ok == D.Get(old(rx), n).0 && rx == D.Get(old(rx), n).2
    {
      var i := 0;
      while i < n
        invariant i <= n && i <= |old(rx)| && rx == old(rx)[i..]
      {
        var one, _ := GetRxData(1);
        if !one { return false; }
        i := i + 1;
      }
      return true;
    }

    /** svc_drop_all_rx_data: empty the link until it has been silent for `wait` milliseconds. */
    method DropAllRxData(wait: nat)
      requires 0 < wait
      modifies this`rx
      ensures rx == []
    {
      var left: int := wait;
      var polled := false;
      while 0 < left
        invariant polled || left == wait
        invariant polled ==> rx == []
        decreases |rx|, left
      {
        if rx != [] {
          var _ := SkipRxData(|rx|);
          left := wait;
        }
        left, polled := left - 20, true;
      }
    }

    static method CopyIn(buf: array<byte>, at: nat, data: seq<byte>)
      requires at + |data| <= buf.Length
      modifies buf
      ensures buf[..] == D.Patch(old(buf[..]), at, data)
    {
      for i := 0 to |data|
        invariant forall k :: 0 <= k < buf.Length ==>
          buf[k] == if at <= k < at + i then data[k - at] else old(buf[k])
      {
        buf[at + i] := data[i];
      }
    }

    method StoreSegment(psn: byte, want: Option<nat>, left: nat) returns (ok: bool)
      requires View().Valid()
      modifies this, readBuf
      ensures readBuf == old(readBuf) && (View(), ok) == D.StoreSegment(crc, old(View()), psn, want, left)
    {
      hide D.Patch;
      var seg := Min(len - done, left);
      var got, data := GetRxData(seg);
      CopyIn(readBuf, base + done, data);
      if !got { return false; }
      if want.Some? && crc(data) != want.value { return false; }
      if seg != left { return false; }
      done, this.psn, idle := done + seg, psn, true;
      return true;
    }

    method ImageData(paramLen: nat, withCrc: bool) returns (ok: bool)
      requires View().Valid() && paramLen < 0x1_0000
      modifies this, readBuf
      ensures readBuf == old(readBuf) && (View(), ok) == D.ImageData(crc, old(View()), paramLen, withCrc)
    {
      hide D.StoreSegment;
      if len == 0 || paramLen < 1 { return false; }
      var got, p := GetRxData(1);
      if !got { return false; }
      var next := (psn + 1) % 256;
      if p[0] != next { return false; }
      if !withCrc {
        ok := StoreSegment(p[0], None, paramLen - 1);
      } else {
        var gotCrc, k := GetRxData(4);
        if !gotCrc { return false; }
        ok := StoreSegment(p[0], Some(FromLe32(k)), (paramLen - 5) % 0x1_0000);
      }
    }

    method RequestUpgrade(paramLen: nat) returns (ok: bool)
      requires paramLen < 0x1_0000
      modifies this
      ensures readBuf == old(readBuf) && (View(), ok) == D.RequestUpgrade(old(View()), paramLen)
    {
      hide D.OneParam;
      features, otaType := 0, 0;
      var left := paramLen;
      ghost var spec := D.UpgradeParams(View(), paramLen);
      while 0 < left
        invariant left < 0x1_0000 && readBuf == old(readBuf)
        invariant D.UpgradeParams(View(), left) == spec
        decreases |rx|
      {
        var one;
        one, left := ReadParam(left);
        if !one { return false; }
      }
      idle := true;
      return true;
    }

    method ReadParam(left: nat) returns (ok: bool, left': nat)
      requires left < 0x1_0000
      modifies this
      ensures readBuf == old(readBuf) && (View(), ok, left') == D.OneParam(old(View()), left)
    {
      left' := 0;
      var got, h := GetRxData(3);
      if !got { return false, 0; }
      var kind, n := h[0], FromLe16(h[1..]);
      if kind == TlvSupportFeatures {
        var gotV, v := GetRxData(1);
        if !gotV { return false, 0; }
        features := v[0];
      } else if kind == TlvOtaType {
        var gotV, v := GetRxData(4);
        if !gotV { return false, 0; }
        otaType := FromLe32(v);
      } else {
        var skipped := SkipRxData(n);
        if !skipped { return false, 0; }
      }
      return true, (left - 3 - n) % 0x1_0000;
    }

    method NegotiationResult() returns (ok: bool)
      modifies this
      ensures readBuf == old(readBuf) && (View(), ok) == D.NegotiationResult(old(View()))
    {
      var got, h := GetRxData(3);
      if !got { return false; }
      var gotV, _ := GetRxData(Min(FromLe16(h[1..]), 1));
      if !gotV { return false; }
      if h[0] != 1 { return false; }
      negotiated, idle := true, true;
      return true;
    }

    method ProcessCommand(processed: nat) returns (ok: bool, processed': nat)
      requires View().Valid()
      modifies this, readBuf
      ensures readBuf == old(readBuf) && (View(), ok, processed') == D.Process(crc, old(View()), processed)
    {
      hide D.ImageData, D.RequestUpgrade, D.NegotiationResult;
      processed' := processed;
      if !idle { return false, processed; }
      var got, h := GetRxData(5);
      if !got { return false, processed; }
      idle := false;
      if h[0] != ServiceOta || h[2] != TypeMain { return false, processed; }
      var cmd, paramLen := h[1], FromLe16(h[3..]);
      if cmd == CmdRequestUpgrade {
        ok := RequestUpgrade(paramLen);
        processed' := cmd;
      } else if cmd == CmdConnectNegotiation {
        ok, processed' := true, cmd;
        idle := true;
      } else if cmd == CmdNegotiationResult {
        ok := NegotiationResult();
        processed' := cmd;
      } else if cmd == CmdSendImageData {
        ok := ImageData(paramLen, false);
        processed' := cmd;
      } else if cmd == CmdSendImageDataCrc {
        ok := ImageData(paramLen, true);
        processed' := cmd;
      } else {
        ok := true;
        idle := true;
      }
    }

    method RequireImageData(off: nat, buf: array<byte>, at: nat, size: nat) returns (ok: bool)
      requires off < 0x1_0000_0000 && size < 0x1_0000_0000 && at + size <= buf.Length
      modifies this
      ensures (View().(mem := buf[..]), ok) == D.Require(old(View()).(mem := buf[..]), off, at, size)
      ensures ok ==> readBuf == buf
    {
      if !negotiated { return false; }
      readBuf, base, len, done, psn := buf, at, size, 0, 0xff;
      if script == [] {
        idle := true;
        return true;
      }
      var a := script[0];
      script := script[1..];
      if a.SendFails? { return false; }
      rx := rx + a.to(RequestBytes(off, size));
      idle := true;
      return true;
    }

    /** The command loop of ota_backend_bt_read: until the window is full, a command fails, or a renegotiation ends. */
    method Commands(off: nat, size: nat, retried: bool, processed: nat)
      returns (failed: bool, restart: bool, processed': nat)
      requires View().Valid() && len == size && off + size < 0x8000_0000
      modifies this, readBuf
      ensures readBuf == old(readBuf) && View().Valid() && base == old(base) && len == size
      ensures script == old(script) && |rx| <= |old(rx)| && (restart ==> |rx| < |old(rx)|)
      ensures var spec, v := D.Loop(crc, old(View()), off, size, retried, processed), View();
        && (failed && retried ==> spec == (v, false))
        && (failed && !retried ==>
            spec == D.TryAgain(crc, v.(rx := [], idle := true), off, base, size, true, processed'))
        && (!failed && restart ==>
            spec == D.TryAgain(crc, v, off + done, base + done, size - done, retried, processed'))
        && (!failed && !restart ==> spec == (v, true))
    {
      hide D.Process, D.TryAgain;
      failed, restart, processed' := false, false, processed;
      ghost var spec := D.Loop(crc, View(), off, size, retried, processed);
      while done != size
        invariant readBuf == old(readBuf) && View().Valid() && base == old(base) && len == size
        invariant script == old(script) && |rx| <= |old(rx)|
        invariant D.Loop(crc, View(), off, size, retried, processed') == spec
        decreases |rx|
      {
        var fine;
        fine, processed' := ProcessCommand(processed');
        if !fine { return true, false, processed'; }
        if processed' == CmdNegotiationResult { return false, true, processed'; }
      }
    }

    /** ota_backend_bt_read. */
    method Read(offset: nat, buf: array<byte>, at0: nat, size0: nat, garbage: nat) returns (ok: bool)
      requires offset + size0 < 0x8000_0000 && at0 + size0 <= buf.Length
      modifies this, buf
      ensures (View().(mem := buf[..]), ok)
           == D.Read(crc, old(View()).(mem := old(buf[..])), offset, at0, size0, garbage)
    {
      hide D.Loop, D.Require;
      var off: nat, at: nat, size: nat, processed: nat := offset, at0, size0, garbage;
      var retried := false;
      ghost var spec := D.Read(crc, View().(mem := buf[..]), offset, at0, size0, garbage);
      while true
        invariant off + size < 0x8000_0000 && at + size <= buf.Length
        invariant D.TryAgain(crc, View().(mem := buf[..]), off, at, size, retried, processed) == spec
        decreases if retried then 0 else 1, |script|, |rx|
      {
        var sent := RequireImageData(off, buf, at, size);
        if !sent { return false; }
        var failed, restart;
        failed, restart, processed := Commands(off, size, retried, processed);
        if failed && !retried {
          DropAllRxData(500);
          idle, retried := true, true;
        } else if restart && !failed {
          off, at, size := off + done, at + done, size - done;
        } else {
          return !failed;
        }
      }
    }
  }
}
