/** usb_handle_control_transfer on the device's own state: flags, a residue and the request buffer. */
module UsbControlEndpoint {
  import opened Basics
  import opened C = UsbControl

  class ControlEndpoint {
    const reqData: array<byte>
    var dataBuf: seq<byte>
    var fill: nat
    var residue: nat
    var zero: bool
    var upper: bool
    var out: seq<Packet>
    var handled: seq<seq<byte>>
    var stalls: seq<nat>

    ghost predicate Valid()
      reads this
    {
      fill <= reqData.Length
    }

    ghost function View(): Dev
      requires Valid()
      reads this, reqData
    {
      Dev(reqData.Length, residue, dataBuf, reqData[..fill], zero, upper, out, handled, stalls)
    }

    constructor (bufSize: nat)
      ensures Valid() && fresh(reqData) && View() == Dev(bufSize, 0, [], [], false, false, [], [], [])
    {
      reqData := new byte[bufSize](_ => 0);
      dataBuf, fill, residue, zero, upper := [], 0, 0, false, false;
      out, handled, stalls := [], [], [];
    }

    method SendChunk()
      requires Valid()
      modifies this
      ensures Valid() && View() == DataToHost(old(View()))
    {
      var chunk := Min(PACKET, Min(residue, |dataBuf|));
      out := out + [dataBuf[..chunk]];
      dataBuf := dataBuf[chunk..];
      residue := residue - chunk;
    }

    /** A packet that cannot be read. */
    method PacketLost(setup: bool)
      requires Valid()
      modifies `stalls
      ensures Valid() && View() == Unread(old(View()), setup)
    {
      stalls := stalls + [EP0_IN];
      if !setup && residue != 0 { stalls := stalls + [EP0_OUT]; }
    }

    /** A setup packet for which the handler is asked at once. */
    method SetupForHost(length: nat, toHost: bool, reply: Reply)
      requires Valid() && (toHost || length == 0)
      modifies this
      ensures Valid() && View() == SetupIn(old(View()), length, toHost, reply)
    {
      residue, dataBuf, fill := length, [], 0;
      handled := handled + [[]];
      if reply.Refused? {
        stalls := stalls + [EP0_IN];
        return;
      }
      dataBuf := reply.data;
      if reply.data == [] && length != 0 {
        upper := true;
        return;
      }
      residue := Min(|dataBuf|, length);
      zero := residue < length && residue % PACKET == 0;
      SendChunk();
    }

    /** A setup packet that announces `length` bytes from the host. */
    method SetupFromHost(length: nat)
      requires Valid() && 0 < length
      modifies this
      ensures Valid() && View() == SetupOut(old(View()), length)
      ensures length <= reqData.Length ==> fill + residue <= reqData.Length
    {
      if reqData.Length < length {
        stalls := stalls + [EP0_IN, EP0_OUT];
        return;
      }
      residue, dataBuf, fill := length, [], 0;
    }

    /** A data packet from the host, stored where the previous one ended. */
    method OutPacket(p: Packet, accept: bool)
      requires Valid() && fill + residue <= reqData.Length
      modifies this, reqData
      ensures Valid() && fill + residue <= reqData.Length
      ensures View() == OutData(old(View()), p, accept)
    {
      if residue == 0 { return; }
      var chunk := Min(|p|, residue);
      ghost var before := reqData[..fill];
      for i := 0 to chunk
        invariant reqData[..fill + i] == before + p[..i]
        modifies reqData
      {
        reqData[fill + i] := p[i];
      }
      fill, residue := fill + chunk, residue - chunk;
      if residue == 0 {
        handled := handled + [reqData[..fill]];
        if accept { SendChunk(); } else { stalls := stalls + [EP0_IN]; }
      }
    }

    /** The controller reports that the host took the last packet. */
    method PacketTaken()
      requires Valid()
      modifies this
      ensures Valid() && View() == InDone(old(View()))
    {
      if upper {
        upper, residue := false, 0;
        return;
      }
      if zero && residue == 0 {
        SendChunk();
        zero := false;
      }
      if residue != 0 {
        SendChunk();
      }
    }
  }
}
