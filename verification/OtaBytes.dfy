/** Bytes, little-endian numbers and the type-length-value packing of the OTA service protocol. */
module OtaBytes {
  import opened Basics

  function Le16(n: nat): (b: seq<byte>)
    requires n < 0x1_0000
    ensures |b| == 2
  {
    [n % 256, n / 256]
  }

  function Le32(n: nat): (b: seq<byte>)
    requires n < 0x1_0000_0000
    ensures |b| == 4
  {
    Le16(n % 0x1_0000) + Le16(n / 0x1_0000)
  }

  function FromLe16(b: seq<byte>): (n: nat)
    requires |b| == 2
    ensures n < 0x1_0000
  {
    var lo: int, hi: int := b[0], b[1];
    lo + 256 * hi
  }

  function FromLe32(b: seq<byte>): (n: nat)
    requires |b| == 4
    ensures n < 0x1_0000_0000
  {
    FromLe16(b[..2]) + 0x1_0000 * FromLe16(b[2..])
  }

  /** The least significant byte comes first. */
  lemma LittleEndian(n: nat)
    requires n < 0x1_0000_0000
    ensures var b := Le32(n);
      b[0] as int + 0x100 * (b[1] as int) + 0x1_0000 * (b[2] as int) + 0x100_0000 * (b[3] as int) == n
    ensures n < 0x1_0000 ==> Le16(n)[0] as int + 0x100 * (Le16(n)[1] as int) == n
  {
  }

  lemma Le16RoundTrip(n: nat)
    requires n < 0x1_0000
    ensures FromLe16(Le16(n)) == n
  {
  }

  lemma Le32RoundTrip(n: nat)
    requires n < 0x1_0000_0000
    ensures FromLe32(Le32(n)) == n
  {
    var lo, hi := Le16(n % 0x1_0000), Le16(n / 0x1_0000);
    assert Le32(n)[..2] == lo && Le32(n)[2..] == hi;
  }

  datatype Tlv = Tlv(kind: byte, value: seq<byte>)

  predicate Fits(t: Tlv) {
    |t.value| < 0x1_0000
  }

  /** tlv_pack; the length field has 16 bits. */
  function PackTlv(t: Tlv): (b: seq<byte>)
    ensures |b| == 3 + |t.value|
  {
    [t.kind] + Le16(|t.value| % 0x1_0000) + t.value
  }

  function PackTlvs(ts: seq<Tlv>): (b: seq<byte>) {
    if ts == [] then [] else PackTlv(ts[0]) + PackTlvs(ts[1..])
  }

  /** The reading side: one TLV off the front of a byte string, with what follows it. */
  function UnpackTlv(b: seq<byte>): (r: Option<(Tlv, seq<byte>)>)
  {
    if |b| < 3 then None
    else
      var n := FromLe16(b[1..3]);
      if |b| < 3 + n then None else Some((Tlv(b[0], b[3..3 + n]), b[3 + n..]))
  }

  lemma TlvRoundTrip(t: Tlv, rest: seq<byte>)
    requires Fits(t)
    ensures UnpackTlv(PackTlv(t) + rest) == Some((t, rest))
  {
    var b := PackTlv(t) + rest;
    assert b[1..3] == Le16(|t.value|);
    Le16RoundTrip(|t.value|);
    assert b[3..3 + |t.value|] == t.value;
    assert b[3 + |t.value|..] == rest;
  }

  // ----- the device's image-data request -----

  const ServiceOta: byte := 0x09
  const TypeMain: byte := 0x80
  const CmdRequestUpgrade: byte := 0x01
  const CmdConnectNegotiation: byte := 0x02
  const CmdRequireImageData: byte := 0x03
  const CmdSendImageData: byte := 0x04
  const CmdNegotiationResult: byte := 0x09
  const CmdSendImageDataCrc: byte := 0x0B
  const TlvSupportFeatures: byte := 0x09
  const TlvOtaType: byte := 0x0A

  /** svc_prot_head: service, command, main type, parameter length. */
  function Head(cmd: byte, paramLen: nat): (b: seq<byte>)
    requires paramLen < 0x1_0000
    ensures |b| == 5
  {
    [ServiceOta, cmd, TypeMain] + Le16(paramLen)
  }

  function RequestParams(off: nat, len: nat): (b: seq<byte>)
    requires off < 0x1_0000_0000 && len < 0x1_0000_0000
    ensures |b| == 18
  {
    PackTlv(Tlv(1, Le32(off))) + PackTlv(Tlv(2, Le32(len))) + PackTlv(Tlv(3, [0]))
  }

  /** The frame the device sends to ask for `len` image bytes at `off`. */
  function RequestBytes(off: nat, len: nat): (b: seq<byte>)
    requires off < 0x1_0000_0000 && len < 0x1_0000_0000
  {
    Head(CmdRequireImageData, 18) + RequestParams(off, len)
  }

  /** The value under `tag` in a list of packed fields. */
  function FieldOf(b: seq<byte>, tag: byte): (r: Option<seq<byte>>)
    decreases |b|
  {
    match UnpackTlv(b)
    case None => None
    case Some((t, rest)) => if t.kind == tag then Some(t.value) else FieldOf(rest, tag)
  }

  /**
    What a host reads out of a request frame: service 9, command 3, main type
    0x80 and the announced length must be right, then it looks up the offset
    under tag 1 and the length under tag 2.
  */
  function ReadRequest(b: seq<byte>): (r: Option<(nat, nat)>)
  {
    if |b| < 5 || b[..3] != [9, 3, 0x80] || FromLe16(b[3..5]) != |b| - 5 then None
    else match (FieldOf(b[5..], 1), FieldOf(b[5..], 2))
      case (Some(off), Some(len)) =>
        if |off| == 4 == |len| then Some((FromLe32(off), FromLe32(len))) else None
      case _ => None
  }

  lemma FieldSkips(t: Tlv, rest: seq<byte>, tag: byte)
    requires Fits(t)
    ensures FieldOf(PackTlv(t) + rest, tag) == if t.kind == tag then Some(t.value) else FieldOf(rest, tag)
  {
    TlvRoundTrip(t, rest);
  }

  /** The host recovers exactly the offset and length the device asked for, and an empty mask under tag 3. */
  lemma RequestRoundTrip(off: nat, len: nat)
    requires off < 0x1_0000_0000 && len < 0x1_0000_0000
    ensures ReadRequest(RequestBytes(off, len)) == Some((off, len))
    ensures FieldOf(RequestBytes(off, len)[5..], 3) == Some([0])
  {
    var t1, t2, t3 := Tlv(1, Le32(off)), Tlv(2, Le32(len)), Tlv(3, [0]);
    var b := RequestBytes(off, len);
    var r2, r1 := PackTlv(t3) + [], PackTlv(t2) + (PackTlv(t3) + []);
    assert b[5..] == PackTlv(t1) + r1 && b[3..5] == Le16(18);
    Le16RoundTrip(18);
    hide PackTlv, FieldOf, Le32, FromLe32;
    FieldSkips(t1, r1, 1);
    FieldSkips(t1, r1, 2);
    FieldSkips(t2, r2, 2);
    FieldSkips(t1, r1, 3);
    FieldSkips(t2, r2, 3);
    FieldSkips(t3, [], 3);
    Le32RoundTrip(off);
    Le32RoundTrip(len);
  }
}
