/**
  The output stream in front of the audio DAC.  The DAC takes no transfer below
  sixteen bytes, so shorter pieces are staged until they add up or are flushed.
*/
module PcmStaging {
  import opened Basics

  const DMA_MIN := 16

  /** What is staged, and the transfers made so far. */
  datatype Stage = Stage(staged: seq<byte>, transfers: seq<seq<byte>>)

  datatype Op = Write(data: seq<byte>) | Flush

  function Zeros(n: nat): (z: seq<byte>)
    ensures |z| == n && forall i :: 0 <= i < n ==> z[i] == 0
  {
    seq(n, _ => 0)
  }

  function Take(s: Stage, data: seq<byte>): Stage
    requires s.staged == []
  {
    if |data| < DMA_MIN then s.(staged := data) else s.(transfers := s.transfers + [data])
  }

  function WriteTo(s: Stage, data: seq<byte>): Stage {
    if 0 < |s.staged| < DMA_MIN then
      var fill := if DMA_MIN - |s.staged| > |data| then |data| else DMA_MIN - |s.staged|;
      var tmp := s.staged + data[..fill];
      if |tmp| < DMA_MIN then s.(staged := tmp)
      else Take(Stage([], s.transfers + [tmp]), data[fill..])
    else Take(s.(staged := []), data)
  }

  /** The zeros a flush adds. */
  function Padding(s: Stage): seq<byte> {
    if 0 < |s.staged| < DMA_MIN then Zeros(DMA_MIN - |s.staged|) else []
  }

  function FlushOut(s: Stage): Stage {
    if s.staged == [] then s else Stage([], s.transfers + [s.staged + Padding(s)])
  }

  function Apply(s: Stage, op: Op): Stage {
    match op
    case Write(data) => WriteTo(s, data)
    case Flush => FlushOut(s)
  }

  function Run(s: Stage, ops: seq<Op>): Stage
    decreases |ops|
  {
    if ops == [] then s else Run(Apply(s, ops[0]), ops[1..])
  }

  // ----- the stream as a FIFO -----

  function Joined(ts: seq<seq<byte>>): seq<byte> {
    if ts == [] then [] else Joined(ts[..|ts| - 1]) + ts[|ts| - 1]
  }

  /** Everything that went in, in order: the data and the zeros of the flushes. */
  function Entered(s: Stage, ops: seq<Op>): seq<byte>
    decreases |ops|
  {
    if ops == [] then []
    else (if ops[0].Write? then ops[0].data else Padding(s)) + Entered(Apply(s, ops[0]), ops[1..])
  }

  ghost predicate Ok(s: Stage) {
    |s.staged| < DMA_MIN && forall k :: 0 <= k < |s.transfers| ==> |s.transfers[k]| >= DMA_MIN
  }

  /** Transferred bytes followed by the staged ones. */
  function Bytes(s: Stage): seq<byte> { Joined(s.transfers) + s.staged }

  lemma JoinedMore(ts: seq<seq<byte>>, t: seq<byte>)
    ensures Joined(ts + [t]) == Joined(ts) + t
  {
    assert (ts + [t])[..|ts|] == ts;
  }

  lemma TakeKeeps(s: Stage, data: seq<byte>)
    requires Ok(s) && s.staged == []
    ensures Ok(Take(s, data)) && Bytes(Take(s, data)) == Bytes(s) + data
  {
    JoinedMore(s.transfers, data);
  }

  lemma Regroup(a: seq<byte>, b: seq<byte>, c: seq<byte>, d: seq<byte>, e: seq<byte>)
    requires b + c == d + e
    ensures (a + d) + [] + e == (a + b) + c
  {
    assert (a + d) + [] + e == a + (d + e);
    assert (a + b) + c == a + (b + c);
  }

  lemma WriteKeeps(s: Stage, data: seq<byte>)
    requires Ok(s)
    ensures Ok(WriteTo(s, data)) && Bytes(WriteTo(s, data)) == Bytes(s) + data
  {
    if s.staged == [] {
      TakeKeeps(s, data);
    } else {
      var fill := if DMA_MIN - |s.staged| > |data| then |data| else DMA_MIN - |s.staged|;
      var first := s.staged + data[..fill];
      assert s.staged + data == first + data[fill..];
      if |first| < DMA_MIN {
        assert data[fill..] == [];
      } else {
        JoinedMore(s.transfers, first);
        TakeKeeps(Stage([], s.transfers + [first]), data[fill..]);
        hide Joined, Take;
        Regroup(Joined(s.transfers), s.staged, data, first, data[fill..]);
      }
    }
  }

  lemma FlushKeeps(s: Stage)
    requires Ok(s)
    ensures Ok(FlushOut(s)) && Bytes(FlushOut(s)) == Bytes(s) + Padding(s) && FlushOut(s).staged == []
  {
    var z := Padding(s);
    hide Joined, Zeros;
    if s.staged != [] {
      assert |z| == DMA_MIN - |s.staged|;
      JoinedMore(s.transfers, s.staged + z);
      assert Joined(s.transfers) + (s.staged + z) == (Joined(s.transfers) + s.staged) + z;
    }
  }

  /** A flush adds zeros behind what is staged, up to one transfer; with nothing staged there is no transfer. */
  lemma FlushPads(s: Stage)
    requires Ok(s)
    ensures s.staged == [] ==> FlushOut(s) == s
    ensures s.staged != [] ==>
      var ts, n := FlushOut(s).transfers, |s.transfers|;
      && |ts| == n + 1 && ts[..n] == s.transfers && |ts[n]| == 16 && s.staged <= ts[n]
      && forall i :: |s.staged| <= i < 16 ==> ts[n][i] == 0
  {
    hide Joined;
    if s.staged != [] {
      assert FlushOut(s).transfers == s.transfers + [s.staged + Zeros(16 - |s.staged|)];
    }
  }

  /**
    Staging is a FIFO: after any writes and flushes the transferred bytes
    followed by the staged ones are all that went in, in order; every transfer
    is long enough and less than one transfer is staged.
  */
  lemma {:induction false} RunIsFifo(s: Stage, ops: seq<Op>)
    requires Ok(s)
    ensures Ok(Run(s, ops)) && Bytes(Run(s, ops)) == Bytes(s) + Entered(s, ops)
    decreases |ops|
  {
    hide Ok, Bytes, WriteTo, FlushOut;
    if ops == [] {
    } else {
      if ops[0].Write? { WriteKeeps(s, ops[0].data); } else { FlushKeeps(s); }
      RunIsFifo(Apply(s, ops[0]), ops[1..]);
    }
  }

  /** A flush leaves nothing behind: the DAC then has everything. */
  lemma FlushDelivers(s: Stage, ops: seq<Op>)
    requires Ok(s)
    ensures var r := FlushOut(Run(s, ops));
      r.staged == [] && Joined(r.transfers) == Bytes(s) + Entered(s, ops) + Padding(Run(s, ops))
  {
    RunIsFifo(s, ops);
    FlushKeeps(Run(s, ops));
  }

  // ----- the stream, updated in place -----

  class Stream {
    const tmp: array<byte>
    var filled: nat
    var transfers: seq<seq<byte>>

    ghost predicate Valid()
      reads this, tmp
    {
      tmp.Length == DMA_MIN && filled < DMA_MIN && Ok(View())
    }

    ghost function View(): Stage
      requires filled <= tmp.Length
      reads this, tmp
    {
      Stage(tmp[..filled], transfers)
    }

    constructor ()
      ensures Valid() && fresh(tmp) && View() == Stage([], [])
    {
      tmp := new byte[DMA_MIN];
      filled, transfers := 0, [];
    }

    /** Copy `data` behind the staged bytes. */
    method CopyIn(data: seq<byte>)
      requires filled + |data| <= tmp.Length
      modifies tmp, `filled
      ensures filled == old(filled) + |data| && tmp[..filled] == old(tmp[..filled]) + data
    {
      forall i | 0 <= i < |data| { tmp[filled + i] := data[i]; }
      filled := filled + |data|;
    }

    method PcmWrite(data: seq<byte>) returns (size: nat)
      requires Valid()
      modifies this, tmp
      ensures Valid() && View() == WriteTo(old(View()), data) && size == |data|
    {
      WriteKeeps(View(), data);
      hide Ok, Bytes, Joined;
      size := |data|;
      var rest := data;
      if filled > 0 {
        var fill := DMA_MIN - filled;
        if fill > |data| { fill := |data|; }
        CopyIn(data[..fill]);
        rest := data[fill..];
        if filled < DMA_MIN { return; }
        assert tmp[..] == tmp[..filled];
        transfers := transfers + [tmp[..]];
        filled := 0;
      }
      if |rest| < DMA_MIN {
        CopyIn(rest);
        return;
      }
      transfers := transfers + [rest];
    }

    method PcmFlush()
      requires Valid()
      modifies this, tmp
      ensures Valid() && View() == FlushOut(old(View()))
    {
      FlushKeeps(View());
      hide Ok, Bytes, Joined;
      if filled > 0 {
        CopyIn(Zeros(DMA_MIN - filled));
        assert tmp[..] == tmp[..filled];
        transfers := transfers + [tmp[..]];
        filled := 0;
      }
    }
  }
}
