/**
  The USB host's walk over a configuration descriptor (sections 9.5 and 9.6 of
  the USB 2.0 specification): the bytes are cut into descriptors by their length
  fields, and the interfaces and endpoints among them are gathered in a table of
  fixed size.
*/
module UsbHostConfig {
  import opened Basics

  type Bytes = seq<byte>

  const INTERFACE: byte := 0x04
  const ENDPOINT: byte := 0x05
  const INTERFACE_SIZE: byte := 9
  const ENDPOINT_SIZE: byte := 7

  /** An endpoint descriptor with its little-endian packet size read out. */
  datatype Endpoint = Endpoint(desc: Bytes, maxPacket: nat)

  datatype Interface = Interface(desc: Bytes, eps: seq<Endpoint>, alts: nat)
  {
    function Number(): int { if |desc| == 9 then desc[2] else -1 }
  }

  datatype Limits = Limits(interfaces: nat, endpoints: nat)

  // ----- cutting bytes into descriptors -----

  /** The descriptor at offset `i`; the end of the buffer may cut it off. */
  function Cut(buf: Bytes, i: nat): (d: Bytes)
    requires i + 1 < |buf|
    ensures 2 <= |d|
  {
    var end := i + buf[i];
    buf[i..if end < i + 2 then i + 2 else if end <= |buf| then end else |buf|]
  }

  /** The descriptors of `buf` from offset `i` up to the end or a zero length. */
  function Descriptors(buf: Bytes, i: nat): (ds: seq<Bytes>)
    decreases |buf| - i
  {
    if i + 1 >= |buf| || buf[i] == 0 then [] else [Cut(buf, i)] + Descriptors(buf, i + buf[i])
  }

  /** A descriptor as a device writes it: its first byte is its length. */
  predicate Proper(d: Bytes) {
    2 <= |d| && d[0] == |d|
  }

  function Join(ds: seq<Bytes>): Bytes {
    if ds == [] then [] else ds[0] + Join(ds[1..])
  }

  /** Walking a configuration gives back the descriptors it was put together from. */
  lemma {:induction false} WalkRoundTrip(before: Bytes, ds: seq<Bytes>)
    requires forall d :: d in ds ==> Proper(d)
    ensures Descriptors(before + Join(ds), |before|) == ds
    decreases |ds|
  {
    var buf, i := before + Join(ds), |before|;
    if ds != [] {
      var d := ds[0];
      assert d in ds;
      assert buf == (before + d) + Join(ds[1..]);
      WalkRoundTrip(before + d, ds[1..]);
      assert buf[i] == d[0];
      assert buf[i..i + |d|] == d;
    }
  }

  // ----- the grouping, without limits -----

  predicate IsInterface(d: Bytes) {
    |d| >= 9 && d[1] == INTERFACE && d[0] == INTERFACE_SIZE
  }

  predicate IsEndpoint(d: Bytes) {
    |d| >= 7 && d[1] == ENDPOINT && d[0] == ENDPOINT_SIZE
  }

  function ReadEndpoint(d: Bytes): Endpoint
    requires IsEndpoint(d)
  {
    var lo: int, hi: int := d[4], d[5];
    Endpoint(d[..7], lo + 256 * hi)
  }

  /** An endpoint descriptor as section 9.6.6 lays it out. */
  function EndpointBytes(address: byte, attributes: byte, maxPacket: nat, interval: byte): Bytes
    requires maxPacket < 0x10000
  {
    [7, 5, address, attributes, maxPacket % 256, maxPacket / 256, interval]
  }

  /** An interface descriptor as section 9.6.5 lays it out. */
  function InterfaceBytes(number: byte, setting: byte, endpoints: byte, class_: (byte, byte, byte), name: byte): Bytes {
    [9, 4, number, setting, endpoints, class_.0, class_.1, class_.2, name]
  }

  /** What a device writes is recognised and read back: the packet size of an endpoint, the number of an interface. */
  lemma DescriptorRoundTrip(a: byte, b: byte, maxPacket: nat, c: byte, class_: (byte, byte, byte), d: byte)
    requires maxPacket < 0x10000
    ensures var e, i := EndpointBytes(a, b, maxPacket, c), InterfaceBytes(a, b, c, class_, d);
      && Proper(e) && IsEndpoint(e) && !IsInterface(e) && ReadEndpoint(e) == Endpoint(e, maxPacket)
      && Proper(i) && IsInterface(i) && !IsEndpoint(i) && Interface(i, [], 1).Number() == a as int
  {
    var e := EndpointBytes(a, b, maxPacket, c);
    assert e[..7] == e;
  }

  function Last(ts: seq<Interface>): Interface
    requires ts != []
  {
    ts[|ts| - 1]
  }

  function WithLast(ts: seq<Interface>, t: Interface): seq<Interface>
    requires ts != []
  {
    ts[..|ts| - 1] + [t]
  }

  /** One more descriptor; anything malformed, unknown or out of order changes nothing. */
  function Add(ts: seq<Interface>, d: Bytes): seq<Interface> {
    if IsInterface(d) then
      if ts == [] || Last(ts).Number() != d[2] then ts + [Interface(d[..9], [], 1)]
      else WithLast(ts, Last(ts).(alts := Last(ts).alts + 1))
    else if IsEndpoint(d) && ts != [] then
      WithLast(ts, Last(ts).(eps := Last(ts).eps + [ReadEndpoint(d)]))
    else ts
  }

  function Group(ts: seq<Interface>, ds: seq<Bytes>): seq<Interface>
    decreases |ds|
  {
    if ds == [] then ts else Group(Add(ts, ds[0]), ds[1..])
  }

  ghost predicate Within(ts: seq<Interface>, m: Limits) {
    |ts| <= m.interfaces && forall i :: 0 <= i < |ts| ==> |ts[i].eps| <= m.endpoints
  }

  // ----- the walk with its table limits -----

  datatype Outcome = Outcome(table: seq<Interface>, ok: bool)

  /** usbh_parse_configuration over a list of descriptors. */
  function Parse(ts: seq<Interface>, ds: seq<Bytes>, m: Limits): Outcome
    decreases |ds|
  {
    if ds == [] then Outcome(ts, true)
    else
      var d := ds[0];
      if IsInterface(d) && (ts == [] || Last(ts).Number() != d[2]) && |ts| >= m.interfaces then Outcome(ts, false)
      else if IsEndpoint(d) && ts != [] && |Last(ts).eps| >= m.endpoints then Outcome(ts, false)
      else Parse(Add(ts, d), ds[1..], m)
  }

  lemma AddGrows(ts: seq<Interface>, d: Bytes)
    ensures |ts| <= |Add(ts, d)|
    ensures forall i :: 0 <= i < |ts| ==> |ts[i].eps| <= |Add(ts, d)[i].eps|
  {
  }

  lemma {:induction false} GroupGrows(ts: seq<Interface>, ds: seq<Bytes>)
    ensures |ts| <= |Group(ts, ds)|
    ensures forall i :: 0 <= i < |ts| ==> |ts[i].eps| <= |Group(ts, ds)[i].eps|
    decreases |ds|
  {
    if ds != [] {
      AddGrows(ts, ds[0]);
      GroupGrows(Add(ts, ds[0]), ds[1..]);
    }
  }

  /**
    The walk reports success exactly when the whole grouping fits the table, and
    then the table is the grouping; on failure the table is what fitted so far.
    Either way it never exceeds its limits.
  */
  lemma {:induction false} ParseIsGroup(ts: seq<Interface>, ds: seq<Bytes>, m: Limits)
    requires Within(ts, m)
    ensures var r := Parse(ts, ds, m);
      && (r.ok <==> Within(Group(ts, ds), m))
      && (r.ok ==> r.table == Group(ts, ds))
      && Within(r.table, m)
    decreases |ds|
  {
    if ds != [] {
      var ts1 := Add(ts, ds[0]);
      GroupGrows(ts1, ds[1..]);
      if Within(ts1, m) {
        assert ts1 != [] ==> |Last(ts1).eps| <= m.endpoints;
        ParseIsGroup(ts1, ds[1..], m);
      } else if |ts1| <= m.interfaces {
        var i :| 0 <= i < |ts1| && |ts1[i].eps| > m.endpoints;
        assert |Group(ts1, ds[1..])[i].eps| > m.endpoints;
        assert i == |ts| - 1;
      }
    }
  }

  // ----- what the grouping keeps -----

  /** The endpoints of a table, each with the position of its interface. */
  function Placed(ts: seq<Interface>): seq<(nat, Endpoint)> {
    if ts == [] then [] else Placed(ts[..|ts| - 1]) + Under(|ts| - 1, Last(ts).eps)
  }

  function Under(i: nat, eps: seq<Endpoint>): seq<(nat, Endpoint)> {
    if eps == [] then [] else Under(i, eps[..|eps| - 1]) + [(i, eps[|eps| - 1])]
  }

  function Numbers(ts: seq<Interface>): seq<int> {
    if ts == [] then [] else Numbers(ts[..|ts| - 1]) + [Last(ts).Number()]
  }

  /** The position of each interface once for every one of its settings. */
  function Settings(ts: seq<Interface>): seq<nat> {
    if ts == [] then [] else Settings(ts[..|ts| - 1]) + Copies(|ts| - 1, Last(ts).alts)
  }

  function Copies(i: nat, n: nat): seq<nat> {
    if n == 0 then [] else Copies(i, n - 1) + [i]
  }

  /**
    The endpoint descriptors in order, each under the interface begun last; `n`
    interfaces have begun, the last one numbered `last`.  Endpoints before the
    first interface belong to none.
  */
  function PlacedOf(ds: seq<Bytes>, n: nat, last: int): seq<(nat, Endpoint)>
    decreases |ds|
  {
    if ds == [] then []
    else if IsInterface(ds[0]) then PlacedOf(ds[1..], if ds[0][2] != last then n + 1 else n, ds[0][2])
    else if IsEndpoint(ds[0]) && n > 0 then [(n - 1, ReadEndpoint(ds[0]))] + PlacedOf(ds[1..], n, last)
    else PlacedOf(ds[1..], n, last)
  }

  /** The interface numbers in order, runs of equal numbers taken once. */
  function NumbersOf(ds: seq<Bytes>, last: int): seq<int>
    decreases |ds|
  {
    if ds == [] then []
    else if IsInterface(ds[0]) && ds[0][2] != last then [ds[0][2] as int] + NumbersOf(ds[1..], ds[0][2])
    else NumbersOf(ds[1..], last)
  }

  /** The interface descriptors in order, as the positions of their interfaces. */
  function SettingsOf(ds: seq<Bytes>, n: nat, last: int): seq<nat>
    requires n == 0 ==> last < 0
    decreases |ds|
  {
    if ds == [] then []
    else if !IsInterface(ds[0]) then SettingsOf(ds[1..], n, last)
    else if ds[0][2] != last then [n] + SettingsOf(ds[1..], n + 1, ds[0][2])
    else [n - 1] + SettingsOf(ds[1..], n, last)
  }

  function Current(ts: seq<Interface>): int { if ts == [] then -1 else Last(ts).Number() }

  lemma BeginKeeps(ts: seq<Interface>, t: Interface)
    requires t.eps == [] && t.alts == 1
    ensures Placed(ts + [t]) == Placed(ts) && Numbers(ts + [t]) == Numbers(ts) + [t.Number()]
    ensures Settings(ts + [t]) == Settings(ts) + [|ts|] && Last(ts + [t]) == t
  {
    var n := |ts|;
    assert (ts + [t])[..n] == ts;
    assert Copies(n, 1) == Copies(n, 0) + [n] == [n];
    assert Placed(ts) + [] == Placed(ts);
  }

  lemma LastKeeps(ts: seq<Interface>, t: Interface)
    requires ts != [] && t.Number() == Last(ts).Number()
    ensures var ts1 := WithLast(ts, t); |ts1| == |ts| && Last(ts1) == t && Numbers(ts1) == Numbers(ts)
    ensures var front := ts[..|ts| - 1];
      && Placed(WithLast(ts, t)) == Placed(front) + Under(|ts| - 1, t.eps)
      && Settings(WithLast(ts, t)) == Settings(front) + Copies(|ts| - 1, t.alts)
  {
    assert WithLast(ts, t)[..|ts| - 1] == ts[..|ts| - 1];
  }

  lemma UnderMore(i: nat, eps: seq<Endpoint>, ep: Endpoint)
    ensures Under(i, eps + [ep]) == Under(i, eps) + [(i, ep)]
  {
    assert (eps + [ep])[..|eps|] == eps;
  }

  lemma AddKeeps(ts: seq<Interface>, d: Bytes)
    ensures var ts1, n := Add(ts, d), |ts|; var begins := IsInterface(d) && d[2] != Current(ts);
      && Placed(ts1) == Placed(ts) + (if IsEndpoint(d) && n > 0 then [(n - 1, ReadEndpoint(d))] else [])
      && Numbers(ts1) == Numbers(ts) + (if begins then [d[2] as int] else [])
      && Settings(ts1) == Settings(ts) + (if begins then [n] else if IsInterface(d) then [n - 1] else [])
      && |ts1| == (if begins then n + 1 else n)
      && Current(ts1) == (if IsInterface(d) then d[2] else Current(ts))
  {
    hide Placed, Under, Numbers, Settings, Copies, ReadEndpoint;
    if IsInterface(d) && d[2] != Current(ts) {
      BeginKeeps(ts, Interface(d[..9], [], 1));
    } else if ts != [] && IsInterface(d) {
      MoreSettings(ts);
    } else if ts != [] && IsEndpoint(d) {
      MoreEndpoints(ts, ReadEndpoint(d));
    }
  }

  lemma MoreSettings(ts: seq<Interface>)
    requires ts != []
    ensures var ts1 := WithLast(ts, Last(ts).(alts := Last(ts).alts + 1));
      && |ts1| == |ts| && Last(ts1).Number() == Last(ts).Number()
      && Placed(ts1) == Placed(ts) && Numbers(ts1) == Numbers(ts) && Settings(ts1) == Settings(ts) + [|ts| - 1]
  {
    LastKeeps(ts, Last(ts).(alts := Last(ts).alts + 1));
  }

  lemma MoreEndpoints(ts: seq<Interface>, ep: Endpoint)
    requires ts != []
    ensures var ts1 := WithLast(ts, Last(ts).(eps := Last(ts).eps + [ep]));
      && |ts1| == |ts| && Last(ts1).Number() == Last(ts).Number()
      && Placed(ts1) == Placed(ts) + [(|ts| - 1, ep)] && Numbers(ts1) == Numbers(ts) && Settings(ts1) == Settings(ts)
  {
    hide Under, Numbers, Copies;
    LastKeeps(ts, Last(ts).(eps := Last(ts).eps + [ep]));
    UnderMore(|ts| - 1, Last(ts).eps, ep);
  }

  /**
    Nothing is lost, moved or reordered: every endpoint lands under the interface
    begun last before it, in order; the interface numbers are those of the
    descriptors with repetitions merged; and every interface descriptor counts
    once as a setting of its interface.
  */
  lemma {:induction false} GroupKeeps(ts: seq<Interface>, ds: seq<Bytes>)
    ensures var g := Group(ts, ds);
      && Placed(g) == Placed(ts) + PlacedOf(ds, |ts|, Current(ts))
      && Numbers(g) == Numbers(ts) + NumbersOf(ds, Current(ts))
      && Settings(g) == Settings(ts) + SettingsOf(ds, |ts|, Current(ts))
    decreases |ds|
  {
    hide Add, ReadEndpoint, Placed, Settings, Numbers;
    if ds != [] {
      AddKeeps(ts, ds[0]);
      GroupKeeps(Add(ts, ds[0]), ds[1..]);
    }
  }

  /** A configuration put together from proper descriptors is read back as their grouping, if it fits. */
  lemma AssembledConfiguration(before: Bytes, ds: seq<Bytes>, m: Limits)
    requires forall d :: d in ds ==> Proper(d)
    ensures var r := Parse([], Descriptors(before + Join(ds), |before|), m);
      && (r.ok <==> Within(Group([], ds), m)) && (r.ok ==> r.table == Group([], ds))
      && (r.ok ==> Placed(r.table) == PlacedOf(ds, 0, -1) && Numbers(r.table) == NumbersOf(ds, -1)
                   && Settings(r.table) == SettingsOf(ds, 0, -1))
  {
    WalkRoundTrip(before, ds);
    ParseIsGroup([], ds, m);
    GroupKeeps([], ds);
  }

  /** Each setting takes nine bytes, so the eight-bit counter cannot wrap on buffers below 2304 bytes. */
  lemma {:induction false} SettingsFit(buf: Bytes, i: nat, k: nat, last: int)
    requires k == 0 ==> last < 0
    ensures var n := |SettingsOf(Descriptors(buf, i), k, last)|;
      9 * n <= |buf| - i || n == 0
    decreases |buf| - i
  {
    if i + 1 < |buf| && buf[i] != 0 {
      var d := Cut(buf, i);
      if !IsInterface(d) {
        SettingsFit(buf, i + buf[i], k, last);
      } else {
        SettingsFit(buf, i + buf[i], if d[2] != last then k + 1 else k, d[2]);
      }
    }
  }

  // ----- the loop over the raw buffer -----

  /** What a descriptor in the buffer looks like to the parser. */
  lemma CutRead(b: Bytes, i: nat)
    requires i + 1 < |b|
    ensures var d := Cut(b, i);
      && |d| >= 2 && d[0] == b[i] && d[1] == b[i + 1]
      && (IsInterface(d) <==> b[i + 1] == INTERFACE && b[i] == INTERFACE_SIZE && i + 9 <= |b|)
      && (IsEndpoint(d) <==> b[i + 1] == ENDPOINT && b[i] == ENDPOINT_SIZE && i + 7 <= |b|)
      && (IsInterface(d) ==> d == b[i..i + 9])
      && (IsEndpoint(d) ==> d == b[i..i + 7])
  {
  }

  lemma ArraySlice(buf: array<byte>, len: nat, i: nat, j: nat)
    requires i <= j <= len <= buf.Length
    ensures buf[..len][i..j] == buf[i..j]
  {
  }

  class HostConfig {
    const limits: Limits
    var table: seq<Interface>

    constructor (limits: Limits)
      ensures this.limits == limits && table == []
    {
      this.limits := limits;
      table := [];
    }

    /** One descriptor at `index`; false when the table is full. */
    method Take(buf: array<byte>, len: nat, index: nat, current: int) returns (ok: bool, current': int)
      requires index + 1 < len <= buf.Length && current == Current(table)
      modifies this
      ensures var d := Cut(buf[..len], index);
        && (!ok ==> table == old(table) && Parse(old(table), [d], limits) == Outcome(table, false))
        && (ok ==> table == Add(old(table), d) && Parse(old(table), [d], limits).ok && current' == Current(table))
    {
      ghost var d := Cut(buf[..len], index);
      CutRead(buf[..len], index);
      current' := current;
      var size, kind := buf[index], buf[index + 1];
      if index + 9 <= len { ArraySlice(buf, len, index, index + 9); }
      if index + 7 <= len { ArraySlice(buf, len, index, index + 7); }
      hide Cut;
      if kind == INTERFACE && size == INTERFACE_SIZE && index + 9 <= len {
        assert d[..9] == d;
        if buf[index + 2] != current {
          if |table| >= limits.interfaces { return false, current; }
          table := table + [Interface(buf[index..index + 9], [], 1)];
          current' := buf[index + 2];
        } else {
          table := WithLast(table, Last(table).(alts := Last(table).alts + 1));
        }
      } else if kind == ENDPOINT && size == ENDPOINT_SIZE && index + 7 <= len && table != [] {
        if |Last(table).eps| >= limits.endpoints { return false, current; }
        var lo: int, hi: int := buf[index + 4], buf[index + 5];
        var ep := Endpoint(buf[index..index + 7], lo + 256 * hi);
        assert d[..7] == d && ep == ReadEndpoint(d);
        table := WithLast(table, Last(table).(eps := Last(table).eps + [ep]));
      }
      return true, current';
    }

    /** usbh_parse_configuration: `start` is the length of the configuration descriptor itself. */
    method ParseConfiguration(buf: array<byte>, len: nat, start: byte) returns (ok: bool)
      requires len <= buf.Length
      modifies this
      ensures Outcome(table, ok) == Parse([], Descriptors(buf[..len], start), limits)
    {
      hide Cut, Add, IsInterface, IsEndpoint;
      table := [];
      var index: nat, current: int := start, -1;
      ghost var all := buf[..len];
      while index + 1 < len && buf[index] != 0
        invariant current == Current(table)
        invariant Parse(table, Descriptors(all, index), limits) == Parse([], Descriptors(all, start), limits)
        decreases len - index
      {
        ghost var d, before := Cut(all, index), table;
        ok, current := Take(buf, len, index, current);
        ParseFirst(before, [d] + Descriptors(all, index + buf[index]), limits);
        if !ok { return false; }
        index := index + buf[index];
      }
      return true;
    }
  }

  lemma ParseFirst(ts: seq<Interface>, ds: seq<Bytes>, m: Limits)
    requires ds != []
    ensures var first := Parse(ts, [ds[0]], m);
      Parse(ts, ds, m) == if first.ok then Parse(Add(ts, ds[0]), ds[1..], m) else first
  {
    assert Parse(Add(ts, ds[0]), [], m).ok;
  }
}
