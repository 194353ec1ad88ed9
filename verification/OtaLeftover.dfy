/**
  What is left in the link from an earlier exchange.  A read opens its window
  without draining the link, so leftover frames come first; this module says
  exactly which of them can spoil the result.
*/
module OtaLeftover {
  import opened Basics
  import opened OtaBytes
  import opened OtaDevice
  import opened OtaHost
  import opened OtaExact

  /**
    What leftover frames do to a fresh window: one is refused and the link is
    drained, they fill the window, or the answer continues behind them.
  */
  datatype Fate = Drained | Filled(bytes: seq<byte>) | Continued(bytes: seq<byte>, psn: byte)

  function FateOf(crc: Crc, fs: seq<Frame>, size: nat, got: seq<byte>, psn: byte): (r: Fate)
    requires |got| <= size
    ensures r.Continued? ==> |r.bytes| < size
    decreases |fs|
  {
    if |got| == size then Filled(got)
    else if fs == [] then Continued(got, psn)
    else if !IsData(fs[0]) then FateOf(crc, fs[1..], size, got, psn)
    else if !Accepted(crc, fs[0], size, |got|, psn) then Drained
    else FateOf(crc, fs[1..], size, got + fs[0].payload, fs[0].psn)
  }

  /**
    The leftover does no harm to a read of `want`.  Behind frames that do not
    fill the window the answer fits only if its numbers start where they have
    come to: no data frame was taken, or a multiple of 256, and then it is put
    behind their bytes.
  */
  predicate Harmless(r: Fate, want: seq<byte>) {
    match r
    case Drained => true
    case Filled(bytes) => bytes == want
    case Continued(bytes, psn) => psn == 0xff && |bytes| <= |want| && bytes + want[..|want| - |bytes|] == want
  }

  /** Complete frames, none of which ends a negotiation. */
  ghost predicate Whole(fs: seq<Frame>) { AllWellFormed(fs) && forall f :: f in fs ==> !f.Result? }

  /** The window's bytes so far. */
  function Window(c: Ctx): seq<byte>
    requires c.Valid()
  {
    c.mem[c.base..c.base + c.done]
  }

  lemma StoredWindow(c: Ctx, f: Frame, tail: seq<byte>)
    requires c.Valid() && IsData(f) && |f.payload| <= c.len - c.done
    ensures var d := Stored(c, f, tail); d.Valid() && Window(d) == Window(c) + f.payload
  {
  }

  ghost predicate AtLeftover(c: Ctx, fs: seq<Frame>, tail: seq<byte>, off: nat, size: nat) {
    && c.Valid() && c.idle && c.len == size && InRange(c, off, c.base, size)
    && Whole(fs) && c.rx == EncodeAll(fs) + tail
  }

  lemma LoopGoes(crc: Crc, c: Ctx, off: nat, size: nat, processed: nat)
    requires c.Valid() && c.len == size && InRange(c, off, c.base, size) && c.done < size
    requires Process(crc, c, processed).1 && Process(crc, c, processed).2 != CmdNegotiationResult
    ensures var p := Process(crc, c, processed);
      p.0.Valid() && Loop(crc, c, off, size, false, processed) == Loop(crc, p.0, off, size, false, p.2)
  {
    hide Process;
  }

  lemma WholeRest(fs: seq<Frame>)
    requires Whole(fs) && fs != []
    ensures WellFormed(fs[0]) && !fs[0].Result? && Whole(fs[1..])
    ensures EncodeAll(fs) == Encode(fs[0]) + EncodeAll(fs[1..])
  {
    hide Encode, WellFormed;
    assert fs[0] in fs;
  }

  /** One leftover frame that does not stop the loop. */
  lemma FrameGoes(crc: Crc, c: Ctx, fs: seq<Frame>, tail: seq<byte>, off: nat, size: nat, processed: nat)
    returns (c': Ctx, processed': nat)
    requires AtLeftover(c, fs, tail, off, size) && c.done < size && fs != []
    requires !IsData(fs[0]) || Accepted(crc, fs[0], size, c.done, c.psn)
    ensures AtLeftover(c', fs[1..], tail, off, size) && c'.base == c.base && c'.script == c.script
    ensures Loop(crc, c, off, size, false, processed) == Loop(crc, c', off, size, false, processed')
    ensures if IsData(fs[0]) then Window(c') == Window(c) + fs[0].payload && c'.psn == fs[0].psn
      else Window(c') == Window(c) && c'.psn == c.psn
  {
    WholeRest(fs);
    var rest := EncodeAll(fs[1..]) + tail;
    assert c.rx == Encode(fs[0]) + rest by { Regroup(Encode(fs[0]), EncodeAll(fs[1..]), tail); }
    hide Process, Encode, EncodeAll, Loop, Whole, WellFormed, Accepted, Patch, Window;
    var p := Process(crc, c, processed);
    c', processed' := p.0, p.2;
    if IsData(fs[0]) {
      AcceptedFits(crc, fs[0], size, c.done, c.psn);
      DataFrameRead(crc, c, fs[0], rest, processed);
      StoredWindow(c, fs[0], rest);
    } else {
      OtherFrameRead(crc, c, fs[0], rest, processed);
      assert Window(c') == Window(c) by { SameWindow(c, c'); }
    }
    LoopGoes(crc, c, off, size, processed);
  }

  lemma Regroup(a: seq<byte>, b: seq<byte>, c: seq<byte>)
    ensures a + b + c == a + (b + c)
  {
  }

  lemma SameWindow(c: Ctx, d: Ctx)
    requires c.Valid() && d.Valid() && d.mem == c.mem && d.base == c.base && d.done == c.done
    ensures Window(d) == Window(c)
  {
  }

  /** Frames that fill the window end the read, whatever comes behind them. */
  lemma {:induction false} LoopFilled(
    crc: Crc, c: Ctx, fs: seq<Frame>, tail: seq<byte>, off: nat, size: nat, processed: nat)
    requires AtLeftover(c, fs, tail, off, size) && FateOf(crc, fs, size, Window(c), c.psn).Filled?
    ensures var r := Loop(crc, c, off, size, false, processed);
      r.1 && r.0.mem[c.base..c.base + size] == FateOf(crc, fs, size, Window(c), c.psn).bytes
    decreases |fs|
  {
    if c.done < size {
      hide Loop, Accepted, Whole, EncodeAll;
      var c', processed' := FrameGoes(crc, c, fs, tail, off, size, processed);
      LoopFilled(crc, c', fs[1..], tail, off, size, processed');
    }
  }

  /** A refused frame drains the link; the retry is exact. */
  lemma {:induction false} LoopDrained(
    crc: Crc, img: seq<byte>, c: Ctx, fs: seq<Frame>, tail: seq<byte>, off: nat, size: nat, processed: nat)
    requires |img| < 0x8000_0000 && off + size <= |img| && HonestHost(crc, img, c.script)
    requires AtLeftover(c, fs, tail, off, size) && FateOf(crc, fs, size, Window(c), c.psn).Drained?
    ensures Delivered(Loop(crc, c, off, size, false, processed), c.base, size, img, off)
    decreases |fs|
  {
    hide Loop, Process, Encode, HonestHost, Accepted, WellFormed;
    if IsData(fs[0]) && !Accepted(crc, fs[0], size, c.done, c.psn) {
      WholeRest(fs);
      var rest := EncodeAll(fs[1..]) + tail;
      Regroup(Encode(fs[0]), EncodeAll(fs[1..]), tail);
      DataFrameRead(crc, c, fs[0], rest, processed);
      FailExact(crc, img, c, off, size, false, processed);
    } else {
      var c', processed' := FrameGoes(crc, c, fs, tail, off, size, processed);
      LoopDrained(crc, img, c', fs[1..], tail, off, size, processed');
    }
  }

  /** Frames that do not fill the window leave the loop in front of the answer. */
  lemma {:induction false} LoopContinued(
    crc: Crc, c: Ctx, fs: seq<Frame>, tail: seq<byte>, off: nat, size: nat, processed: nat)
    returns (c': Ctx, processed': nat)
    requires AtLeftover(c, fs, tail, off, size) && FateOf(crc, fs, size, Window(c), c.psn).Continued?
    ensures AtLeftover(c', [], tail, off, size) && c'.base == c.base && c'.script == c.script
    ensures Loop(crc, c, off, size, false, processed) == Loop(crc, c', off, size, false, processed')
    ensures FateOf(crc, fs, size, Window(c), c.psn) == Continued(Window(c'), c'.psn)
    decreases |fs|
  {
    if fs == [] {
      c', processed' := c, processed;
    } else {
      hide Loop, Accepted, Whole, EncodeAll;
      var c1, processed1 := FrameGoes(crc, c, fs, tail, off, size, processed);
      c', processed' := LoopContinued(crc, c1, fs[1..], tail, off, size, processed1);
    }
  }

  // ----- an answer put `n` bytes too far -----

  /** The image range repeats itself every `n` bytes. */
  predicate Repeats(img: seq<byte>, off: nat, size: nat, n: nat)
    requires n <= size && off + size <= |img|
  {
    img[off + n..off + size] == img[off..off + size - n]
  }

  lemma RepeatsAt(img: seq<byte>, off: nat, size: nat, n: nat, m: nat, l: nat)
    requires n + m + l <= size && off + size <= |img| && Repeats(img, off, size, n)
    ensures img[off + n + m..off + n + m + l] == img[off + m..off + m + l]
  {
    SubSlice(img, off + n, off + size, m, m + l);
    SubSlice(img, off, off + size - n, m, m + l);
  }

  lemma SubSlice(s: seq<byte>, a: nat, b: nat, i: nat, j: nat)
    requires a <= b <= |s| && i <= j <= b - a
    ensures s[a..b][i..j] == s[a + i..a + j]
  {
    forall k | 0 <= k < j - i ensures s[a..b][i..j][k] == s[a + i..a + j][k] {
    }
  }

  /** Bytes that the range begins with and then repeats. */
  lemma RepeatsBehind(img: seq<byte>, off: nat, size: nat, bytes: seq<byte>)
    requires off + size <= |img| && |bytes| <= size
    requires var want := img[off..off + size]; bytes + want[..size - |bytes|] == want
    ensures bytes == img[off..off + |bytes|] && Repeats(img, off, size, |bytes|)
  {
    var want, n := img[off..off + size], |bytes|;
    assert want[..n] == bytes && want[n..] == want[..size - n];
    SubSlice(img, off, off + size, 0, n);
    SubSlice(img, off, off + size, n, size);
    SubSlice(img, off, off + size, 0, size - n);
  }

  ghost predicate AtShifted(
    crc: Crc, img: seq<byte>, c: Ctx, fs: seq<Frame>, off: nat, size: nat, n: nat, m: nat)
    requires |img| < 0x8000_0000
  {
    && off + size <= |img| && HonestHost(crc, img, c.script)
    && c.Valid() && c.idle && c.len == size && InRange(c, off, c.base, size) && c.done == n + m
    && Copied(c, img, off, c.done) && Repeats(img, off, size, n)
    && CutFrom(c.rx, fs) && Faithful(crc, img, fs, off, size, m, c.psn)
  }

  /** The same in front of a complete frame. */
  ghost predicate AtShiftedFrame(
    crc: Crc, img: seq<byte>, c: Ctx, fs: seq<Frame>, rest: seq<byte>, off: nat, size: nat, n: nat, m: nat)
    requires |img| < 0x8000_0000
  {
    && AtShifted(crc, img, c, fs, off, size, n, m) && c.done < size
    && fs != [] && WellFormed(fs[0]) && c.rx == Encode(fs[0]) + rest && CutFrom(rest, fs[1..])
  }

  lemma ShiftedFrame(crc: Crc, img: seq<byte>, c: Ctx, fs: seq<Frame>, off: nat, size: nat, n: nat, m: nat)
    returns (rest: seq<byte>)
    requires |img| < 0x8000_0000 && AtShifted(crc, img, c, fs, off, size, n, m) && c.done < size
    requires fs != [] && WellFormed(fs[0]) && |Encode(fs[0])| <= |c.rx|
    ensures AtShiftedFrame(crc, img, c, fs, rest, off, size, n, m)
  {
    hide HonestHost, Repeats, Faithful, EncodeAll, Copied, Encode, WellFormed;
    rest := SplitFront(c.rx, fs);
  }

  /** An honest answer behind `n` right bytes of a range that repeats itself after them ends right. */
  lemma {:induction false} ShiftedExact(
    crc: Crc, img: seq<byte>, c: Ctx, fs: seq<Frame>, off: nat, size: nat, n: nat, m: nat, processed: nat)
    requires |img| < 0x8000_0000 && AtShifted(crc, img, c, fs, off, size, n, m)
    ensures Exact(Loop(crc, c, off, size, false, processed), c.base, size, img, off)
    decreases |fs|, 1
  {
    if c.done != size {
      assert fs != [] ==> WellFormed(fs[0]) by { assert fs != [] ==> fs[0] in fs; }
      hide Loop, Process, HonestHost, Faithful, EncodeAll, Copied, Repeats, WellFormed, Encode;
      if fs == [] || |c.rx| < |Encode(fs[0])| {
        NoFrameFails(crc, c, fs, processed);
        ShiftedFails(crc, img, c, fs, off, size, n, m, processed);
      } else {
        var rest := ShiftedFrame(crc, img, c, fs, off, size, n, m);
        hide AtShifted;
        if !IsData(fs[0]) {
          ShiftedOther(crc, img, c, fs, rest, off, size, n, m, processed);
        } else if Accepted(crc, fs[0], size, c.done, c.psn) {
          ShiftedTaken(crc, img, c, fs, rest, off, size, n, m, processed);
        } else {
          ShiftedRefused(crc, img, c, fs, rest, off, size, n, m, processed);
        }
      }
    }
  }

  lemma ShiftedFails(
    crc: Crc, img: seq<byte>, c: Ctx, fs: seq<Frame>, off: nat, size: nat, n: nat, m: nat, processed: nat)
    requires |img| < 0x8000_0000 && AtShifted(crc, img, c, fs, off, size, n, m)
    requires c.done != size && !Process(crc, c, processed).1
    ensures Exact(Loop(crc, c, off, size, false, processed), c.base, size, img, off)
  {
    hide Loop, Process, HonestHost, Repeats, Faithful, EncodeAll, Copied, CutFrom;
    FailExact(crc, img, c, off, size, false, processed);
  }

  lemma ShiftedRefused(
    crc: Crc, img: seq<byte>, c: Ctx, fs: seq<Frame>, rest: seq<byte>, off: nat, size: nat,
    n: nat, m: nat, processed: nat)
    requires |img| < 0x8000_0000 && AtShiftedFrame(crc, img, c, fs, rest, off, size, n, m)
    requires IsData(fs[0]) && !Accepted(crc, fs[0], size, c.done, c.psn)
    ensures Exact(Loop(crc, c, off, size, false, processed), c.base, size, img, off)
  {
    hide Loop, Process, HonestHost, Repeats, Faithful, EncodeAll, Copied, CutFrom, WellFormed, Encode, Accepted;
    DataFrameRead(crc, c, fs[0], rest, processed);
    ShiftedFails(crc, img, c, fs, off, size, n, m, processed);
  }

  lemma {:induction false} ShiftedTaken(
    crc: Crc, img: seq<byte>, c: Ctx, fs: seq<Frame>, rest: seq<byte>, off: nat, size: nat,
    n: nat, m: nat, processed: nat)
    requires |img| < 0x8000_0000 && AtShiftedFrame(crc, img, c, fs, rest, off, size, n, m)
    requires IsData(fs[0]) && Accepted(crc, fs[0], size, c.done, c.psn)
    ensures Exact(Loop(crc, c, off, size, false, processed), c.base, size, img, off)
    decreases |fs|, 0
  {
    hide Loop, Process, HonestHost, Repeats, Faithful, EncodeAll, Copied, CutFrom, WellFormed, Encode, Accepted;
    DataFrameRead(crc, c, fs[0], rest, processed);
    StoredShifted(crc, img, c, fs, rest, off, size, n, m);
    LoopGoes(crc, c, off, size, processed);
    var p := Process(crc, c, processed);
    hide AtShifted, Stored;
    ShiftedExact(crc, img, p.0, fs[1..], off, size, n, m + |fs[0].payload|, p.2);
  }

  lemma StoredShifted(crc: Crc, img: seq<byte>, c: Ctx, fs: seq<Frame>, rest: seq<byte>,
                      off: nat, size: nat, n: nat, m: nat)
    requires |img| < 0x8000_0000 && AtShifted(crc, img, c, fs, off, size, n, m) && c.done < size
    requires fs != [] && IsData(fs[0]) && Accepted(crc, fs[0], size, c.done, c.psn) && CutFrom(rest, fs[1..])
    ensures |fs[0].payload| <= size - c.done
    ensures AtShifted(crc, img, Stored(c, fs[0], rest), fs[1..], off, size, n, m + |fs[0].payload|)
    ensures Stored(c, fs[0], rest).base == c.base
  {
    hide HonestHost, Repeats, Accepted, Faithful, EncodeAll, CutFrom, Copied, Patch;
    var f := fs[0];
    AcceptedFits(crc, f, size, c.done, c.psn);
    FaithfulData(crc, img, fs, off, size, m, c.done, c.psn);
    RepeatsAt(img, off, size, n, m, |f.payload|);
    SegmentCopied(c, f, rest, img, off);
  }

  /** What is accepted with less room is accepted with more, and then it is the image's. */
  lemma FaithfulData(
    crc: Crc, img: seq<byte>, fs: seq<Frame>, off: nat, len: nat, m: nat, done: nat, psn: byte)
    requires off + len <= |img| && m <= done < len && fs != [] && IsData(fs[0])
    requires Faithful(crc, img, fs, off, len, m, psn) && Accepted(crc, fs[0], len, done, psn)
    ensures m + |fs[0].payload| <= len && fs[0].payload == img[off + m..off + m + |fs[0].payload|]
    ensures Faithful(crc, img, fs[1..], off, len, m + |fs[0].payload|, fs[0].psn)
  {
    assert Accepted(crc, fs[0], len, m, psn);
  }

  lemma {:induction false} ShiftedOther(
    crc: Crc, img: seq<byte>, c: Ctx, fs: seq<Frame>, rest: seq<byte>, off: nat, size: nat,
    n: nat, m: nat, processed: nat)
    requires |img| < 0x8000_0000 && AtShiftedFrame(crc, img, c, fs, rest, off, size, n, m) && !IsData(fs[0])
    ensures Exact(Loop(crc, c, off, size, false, processed), c.base, size, img, off)
    decreases |fs|, 0
  {
    hide Loop, Process, HonestHost, Repeats, Faithful, EncodeAll, CutFrom, WellFormed, Encode, Copied;
    FaithfulOther(crc, img, fs, rest, off, size, m, c.psn);
    if fs[0].Result? {
      ShiftedRestart(crc, img, c, fs, rest, off, size, n, m, processed);
    } else {
      var p := PassedShifted(crc, img, c, fs, rest, off, size, n, m, processed);
      LoopGoes(crc, c, off, size, processed);
      hide AtShifted, AtShiftedFrame;
      ShiftedExact(crc, img, p.0, fs[1..], off, size, n, m, p.2);
    }
  }

  lemma PassedShifted(
    crc: Crc, img: seq<byte>, c: Ctx, fs: seq<Frame>, rest: seq<byte>, off: nat, size: nat,
    n: nat, m: nat, processed: nat)
    returns (p: (Ctx, bool, nat))
    requires |img| < 0x8000_0000 && AtShiftedFrame(crc, img, c, fs, rest, off, size, n, m)
    requires !IsData(fs[0]) && !fs[0].Result?
    ensures p == Process(crc, c, processed) && p.1 && p.2 != CmdNegotiationResult && p.0.base == c.base
    ensures AtShifted(crc, img, p.0, fs[1..], off, size, n, m)
  {
    hide Process, HonestHost, Repeats, Faithful, EncodeAll, CutFrom, WellFormed, Encode;
    FaithfulOther(crc, img, fs, rest, off, size, m, c.psn);
    OtherFrameRead(crc, c, fs[0], rest, processed);
    p := Process(crc, c, processed);
  }

  lemma ShiftedRestart(
    crc: Crc, img: seq<byte>, c: Ctx, fs: seq<Frame>, rest: seq<byte>, off: nat, size: nat,
    n: nat, m: nat, processed: nat)
    requires |img| < 0x8000_0000 && AtShiftedFrame(crc, img, c, fs, rest, off, size, n, m)
    requires fs[0].Result? && rest == []
    ensures Exact(Loop(crc, c, off, size, false, processed), c.base, size, img, off)
  {
    hide Loop, Process, HonestHost, Repeats, Faithful, EncodeAll, CutFrom, WellFormed, Encode, Copied, TryAgain;
    OtherFrameRead(crc, c, fs[0], rest, processed);
    LoopRestarts(crc, c, off, size, false, processed);
    var p := Process(crc, c, processed);
    RestartExact(crc, img, c, p.0, off, size, false, p.2);
  }

  lemma FaithfulOther(
    crc: Crc, img: seq<byte>, fs: seq<Frame>, rest: seq<byte>, off: nat, len: nat, m: nat, psn: byte)
    requires off + len <= |img| && m < len && fs != [] && !IsData(fs[0]) && CutFrom(rest, fs[1..])
    requires Faithful(crc, img, fs, off, len, m, psn)
    ensures fs[0].Result? ==> rest == []
    ensures !fs[0].Result? ==> Faithful(crc, img, fs[1..], off, len, m, psn)
  {
    assert fs[0].Result? ==> fs[1..] == [];
    assert EncodeAll([]) == [];
  }

  // ----- hosts that spoil a continued window -----

  /** The bytes `d`, one frame each, numbered on from `psn`. */
  function Singles(d: seq<byte>, psn: byte): (fs: seq<Frame>)
    ensures |fs| == |d|
    decreases |d|
  {
    if d == [] then [] else [Data((psn + 1) % 256, [d[0]])] + Singles(d[1..], (psn + 1) % 256)
  }

  lemma {:induction false} SinglesWhole(d: seq<byte>, psn: byte)
    ensures Whole(Singles(d, psn))
    decreases |d|
  {
    if d != [] { SinglesWhole(d[1..], (psn + 1) % 256); }
  }

  lemma FateStep(crc: Crc, f: Frame, gs: seq<Frame>, size: nat, got: seq<byte>, psn: byte)
    requires |got| < size && IsData(f) && Accepted(crc, f, size, |got|, psn)
    ensures FateOf(crc, [f] + gs, size, got, psn) == FateOf(crc, gs, size, got + f.payload, f.psn)
  {
    assert ([f] + gs)[1..] == gs;
  }

  lemma {:induction false} SinglesFill(crc: Crc, d: seq<byte>, size: nat, got: seq<byte>, psn: byte)
    requires |got| + |d| == size
    ensures FateOf(crc, Singles(d, psn), size, got, psn) == Filled(got + d)
    decreases |d|
  {
    if d != [] { hide FateOf; }
    if d == [] {
      assert got + d == got;
    } else {
      var next := (psn + 1) % 256;
      SinglesFill(crc, d[1..], size, got + [d[0]], next);
      FateStep(crc, Data(next, [d[0]]), Singles(d[1..], next), size, got, psn);
      assert got + [d[0]] + d[1..] == got + d;
    }
  }

  lemma {:induction false} FateContinues(
    crc: Crc, fs: seq<Frame>, gs: seq<Frame>, size: nat, got: seq<byte>, psn: byte)
    requires |got| <= size && FateOf(crc, fs, size, got, psn).Continued?
    ensures var r := FateOf(crc, fs, size, got, psn);
      FateOf(crc, fs + gs, size, got, psn) == FateOf(crc, gs, size, r.bytes, r.psn)
    decreases |fs|
  {
    if fs == [] {
      assert fs + gs == gs;
    } else {
      assert (fs + gs)[1..] == fs[1..] + gs;
      if IsData(fs[0]) {
        FateContinues(crc, fs[1..], gs, size, got + fs[0].payload, fs[0].psn);
      } else {
        FateContinues(crc, fs[1..], gs, size, got, psn);
      }
    }
  }

  /** A host is honest if its one answer is. */
  lemma OneAnswerHonest(crc: Crc, img: seq<byte>, off: nat, size: nat, fs: seq<Frame>, a: Answer)
    requires |img| < 0x8000_0000 && off + size <= |img| && Whole(fs)
    requires Faithful(crc, img, fs, off, size, 0, 0xff)
    requires a == OneAnswer(RequestBytes(off, size), EncodeAll(fs))
    ensures HonestHost(crc, img, [a])
  {
    assert EncodeAll([]) == [];
    hide RequestBytes, EncodeAll, ReadRequest;
    RequestRoundTrip(off, size);
    forall q: seq<byte> ensures HonestTo(crc, img, q, a.to(q)) {
      if q == RequestBytes(off, size) {
        assert CutFrom(EncodeAll(fs), fs);
      } else if ReadRequest(q).Some? && ReadRequest(q).value.0 + ReadRequest(q).value.1 <= |img| {
        var (off', len') := ReadRequest(q).value;
        assert CutFrom([], []) && Faithful(crc, img, [], off', len', 0, 0xff);
      }
    }
  }

  /** Frames that start at another number than a fresh window expects are honest, whatever they hold. */
  lemma OddIsFaithful(crc: Crc, img: seq<byte>, off: nat, size: nat, d: seq<byte>, psn: byte)
    requires off + size <= |img| && 0 < size && d != [] && psn != 0xff
    ensures Faithful(crc, img, Singles(d, psn), off, size, 0, 0xff)
  {
  }

  /** So are frames that hold the front of the range, as long as some of it is missing. */
  lemma {:induction false} FrontIsFaithful(
    crc: Crc, img: seq<byte>, off: nat, size: nat, done: nat, d: seq<byte>, psn: byte)
    requires off + size <= |img| && done + |d| < size && d == img[off + done..off + done + |d|]
    ensures Faithful(crc, img, Singles(d, psn), off, size, done, psn)
    decreases |d|
  {
    if d != [] {
      var next := (psn + 1) % 256;
      FrontIsFaithful(crc, img, off, size, done + 1, d[1..], next);
      assert Singles(d, psn)[1..] == Singles(d[1..], next);
      assert [d[0]] == img[off + done..off + done + 1];
    }
  }

  // ----- the exact condition -----

  /** Every honest host lets the read deliver the image or fail. */
  ghost predicate AlwaysExact(crc: Crc, img: seq<byte>, c: Ctx, off: nat, at: nat, size: nat, garbage: nat)
    requires |img| < 0x8000_0000 && off + size <= |img| && InRange(c, off, at, size)
  {
    forall script :: HonestHost(crc, img, script) ==>
      Exact(Read(crc, c.(script := script), off, at, size, garbage), at, size, img, off)
  }

  /** Where a read stands once its request is out. */
  lemma Opened(c: Ctx, fs: seq<Frame>, off: nat, at: nat, size: nat) returns (tail: seq<byte>)
    requires InRange(c, off, at, size) && Whole(fs) && c.rx == EncodeAll(fs) && Require(c, off, at, size).1
    ensures var q := Require(c, off, at, size).0;
      && AtLeftover(q, fs, tail, off, size) && q.base == at && q.psn == 0xff && Window(q) == []
      && q.script == (if c.script == [] then [] else c.script[1..])
    ensures c.script != [] ==> c.script[0].Reply? && tail == c.script[0].to(RequestBytes(off, size))
    ensures c.script == [] ==> tail == []
  {
    hide Whole, EncodeAll, RequestBytes;
    tail := if c.script == [] then [] else c.script[0].to(RequestBytes(off, size));
    assert c.rx + [] == c.rx;
  }

  lemma HarmlessIsExact(
    crc: Crc, img: seq<byte>, c: Ctx, fs: seq<Frame>, off: nat, at: nat, size: nat, garbage: nat)
    requires |img| < 0x8000_0000 && off + size <= |img| && InRange(c, off, at, size)
    requires Whole(fs) && c.rx == EncodeAll(fs) && HonestHost(crc, img, c.script)
    requires Harmless(FateOf(crc, fs, size, [], 0xff), img[off..off + size])
    ensures Exact(Read(crc, c, off, at, size, garbage), at, size, img, off)
  {
    hide Read, HonestHost, FateOf, Whole, EncodeAll, Exact;
    if FateOf(crc, fs, size, [], 0xff).Continued? {
      ContinuedIsExact(crc, img, c, fs, off, at, size, garbage);
    } else {
      DecidedIsExact(crc, img, c, fs, off, at, size, garbage);
    }
  }

  lemma DecidedIsExact(
    crc: Crc, img: seq<byte>, c: Ctx, fs: seq<Frame>, off: nat, at: nat, size: nat, garbage: nat)
    requires |img| < 0x8000_0000 && off + size <= |img| && InRange(c, off, at, size)
    requires Whole(fs) && c.rx == EncodeAll(fs) && HonestHost(crc, img, c.script)
    requires var r := FateOf(crc, fs, size, [], 0xff); !r.Continued? && Harmless(r, img[off..off + size])
    ensures Exact(Read(crc, c, off, at, size, garbage), at, size, img, off)
  {
    hide Read, Loop, HonestHost, FateOf, Require, AtLeftover, Whole, EncodeAll;
    ReadOpens(crc, c, off, at, size, garbage);
    var q := Require(c, off, at, size);
    if q.1 {
      var tail := Opened(c, fs, off, at, size);
      TailHonest(crc, img, c.script);
      if FateOf(crc, fs, size, [], 0xff).Filled? {
        LoopFilled(crc, q.0, fs, tail, off, size, garbage);
      } else {
        LoopDrained(crc, img, q.0, fs, tail, off, size, garbage);
      }
    }
  }

  lemma ReadOpens(crc: Crc, c: Ctx, off: nat, at: nat, size: nat, garbage: nat)
    requires InRange(c, off, at, size)
    ensures var q := Require(c, off, at, size);
      && (q.1 ==>
            && q.0.base == at && q.0.len == size
            && Read(crc, c, off, at, size, garbage) == Loop(crc, q.0, off, size, false, garbage))
      && (!q.1 ==> !Read(crc, c, off, at, size, garbage).1)
  {
    hide Loop, Require;
  }

  lemma ContinuedIsExact(
    crc: Crc, img: seq<byte>, c: Ctx, fs: seq<Frame>, off: nat, at: nat, size: nat, garbage: nat)
    requires |img| < 0x8000_0000 && off + size <= |img| && InRange(c, off, at, size)
    requires Whole(fs) && c.rx == EncodeAll(fs) && HonestHost(crc, img, c.script)
    requires var r := FateOf(crc, fs, size, [], 0xff); r.Continued? && Harmless(r, img[off..off + size])
    ensures Exact(Read(crc, c, off, at, size, garbage), at, size, img, off)
  {
    hide Read, Loop, FateOf, Require, Whole, HonestHost, EncodeAll, Harmless, AtLeftover, Window;
    ReadOpens(crc, c, off, at, size, garbage);
    var q := Require(c, off, at, size);
    if q.1 {
      var tail := Opened(c, fs, off, at, size);
      TailHonest(crc, img, c.script);
      var gs := AnswerFrames(crc, img, c.script, tail, off, size);
      LoopContinuedExact(crc, img, q.0, fs, tail, gs, off, size, garbage);
    }
  }

  lemma LoopContinuedExact(
    crc: Crc, img: seq<byte>, c: Ctx, fs: seq<Frame>, tail: seq<byte>, gs: seq<Frame>, off: nat, size: nat,
    processed: nat)
    requires |img| < 0x8000_0000 && off + size <= |img| && HonestHost(crc, img, c.script)
    requires AtLeftover(c, fs, tail, off, size) && CutFrom(tail, gs) && Faithful(crc, img, gs, off, size, 0, 0xff)
    requires var r := FateOf(crc, fs, size, Window(c), c.psn); r.Continued? && Harmless(r, img[off..off + size])
    ensures Exact(Loop(crc, c, off, size, false, processed), c.base, size, img, off)
  {
    hide Loop, FateOf, Whole, HonestHost, EncodeAll, Faithful, CutFrom, Harmless;
    var c', processed' := LoopContinued(crc, c, fs, tail, off, size, processed);
    NothingLeft(c', tail, off, size);
    AnswerFollows(crc, img, c', gs, off, size);
    hide AtShifted, AtLeftover, Window;
    ShiftedExact(crc, img, c', gs, off, size, c'.done, 0, processed');
  }

  lemma AnswerFrames(crc: Crc, img: seq<byte>, script: seq<Answer>, tail: seq<byte>, off: nat, size: nat)
    returns (gs: seq<Frame>)
    requires |img| < 0x8000_0000 && off + size <= |img| && HonestHost(crc, img, script)
    requires if script == [] then tail == [] else script[0].Reply? && tail == script[0].to(RequestBytes(off, size))
    ensures CutFrom(tail, gs) && Faithful(crc, img, gs, off, size, 0, 0xff)
  {
    hide RequestBytes, ReadRequest;
    gs := [];
    assert EncodeAll(gs) == [];
    if script != [] {
      RequestRoundTrip(off, size);
      assert HonestTo(crc, img, RequestBytes(off, size), tail);
      assert HonestReply(crc, img, tail, off, size);
      gs :| CutFrom(tail, gs) && Faithful(crc, img, gs, off, size, 0, 0xff);
    }
  }

  /** Harmless bytes in the window are the front of a range that repeats itself. */
  lemma AnswerFollows(crc: Crc, img: seq<byte>, c: Ctx, gs: seq<Frame>, off: nat, size: nat)
    requires |img| < 0x8000_0000 && off + size <= |img| && HonestHost(crc, img, c.script)
    requires c.Valid() && c.idle && c.len == size && InRange(c, off, c.base, size)
    requires Harmless(Continued(Window(c), c.psn), img[off..off + size])
    requires CutFrom(c.rx, gs) && Faithful(crc, img, gs, off, size, 0, 0xff)
    ensures AtShifted(crc, img, c, gs, off, size, c.done, 0)
  {
    hide HonestHost, Faithful, CutFrom, Repeats;
    HarmlessRepeats(img, off, size, Window(c), c.psn);
  }

  lemma HarmlessRepeats(img: seq<byte>, off: nat, size: nat, bytes: seq<byte>, psn: byte)
    requires off + size <= |img| && |bytes| <= size && Harmless(Continued(bytes, psn), img[off..off + size])
    ensures psn == 0xff && bytes == img[off..off + |bytes|] && Repeats(img, off, size, |bytes|)
  {
    hide Repeats;
    RepeatsBehind(img, off, size, bytes);
  }

  lemma NothingLeft(c: Ctx, tail: seq<byte>, off: nat, size: nat)
    requires AtLeftover(c, [], tail, off, size)
    ensures c.rx == tail
  {
    assert EncodeAll([]) == [];
  }

  lemma TailHonest(crc: Crc, img: seq<byte>, script: seq<Answer>)
    requires |img| < 0x8000_0000 && HonestHost(crc, img, script)
    ensures script != [] ==> HonestHost(crc, img, script[1..])
  {
    if script != [] {
      var rest := script[1..];
      forall k, q | 0 <= k < |rest| && rest[k].Reply? ensures HonestTo(crc, img, q, rest[k].to(q)) {
        assert rest[k] == script[k + 1];
      }
    }
  }

  /** Frames that fill the window decide the result: leftover ones, or these and the answer behind them. */
  lemma FilledDecides(
    crc: Crc, c: Ctx, fs: seq<Frame>, gs: seq<Frame>, off: nat, at: nat, size: nat, garbage: nat)
    requires InRange(c, off, at, size) && c.negotiated && Whole(fs) && Whole(gs) && c.rx == EncodeAll(fs)
    requires if c.script == [] then gs == []
      else c.script[0].Reply? && c.script[0].to(RequestBytes(off, size)) == EncodeAll(gs)
    requires FateOf(crc, fs + gs, size, [], 0xff).Filled?
    ensures var r := Read(crc, c, off, at, size, garbage);
      r.1 && r.0.mem[at..at + size] == FateOf(crc, fs + gs, size, [], 0xff).bytes
  {
    var q := Require(c, off, at, size).0;
    assert EncodeAll([]) == [];
    hide Loop, FateOf, EncodeAll, RequestBytes;
    var tail := Opened(c, fs, off, at, size);
    EncodeBoth(fs, gs);
    assert q.rx == EncodeAll(fs + gs) + [];
    hide Require;
    LoopFilled(crc, q, fs + gs, [], off, size, garbage);
  }

  /** What the frames of `d` do behind leftover frames that do not fill the window. */
  lemma CompletedFate(crc: Crc, fs: seq<Frame>, size: nat, d: seq<byte>)
    requires var r := FateOf(crc, fs, size, [], 0xff); r.Continued? && |r.bytes| + |d| == size
    ensures var r := FateOf(crc, fs, size, [], 0xff);
      FateOf(crc, fs + Singles(d, r.psn), size, [], 0xff) == Filled(r.bytes + d)
  {
    var r := FateOf(crc, fs, size, [], 0xff);
    hide FateOf, Singles;
    FateContinues(crc, fs, Singles(d, r.psn), size, [], 0xff);
    SinglesFill(crc, d, size, r.bytes, r.psn);
  }

  lemma Differs(bytes: seq<byte>, d: seq<byte>, img: seq<byte>, off: nat, size: nat)
    requires |bytes| + |d| == size && off + size <= |img| && d != [] && d[0] != img[off + |bytes|]
    ensures bytes + d != img[off..off + size]
  {
    assert (bytes + d)[|bytes|] != img[off..off + size][|bytes|];
  }

  /** What an honest host can send to spoil a window that leftover frames have not filled harmlessly. */
  lemma SpoilingBytes(crc: Crc, img: seq<byte>, bytes: seq<byte>, psn: byte, off: nat, size: nat)
    returns (d: seq<byte>)
    requires off + size <= |img| && |bytes| < size && !Harmless(Continued(bytes, psn), img[off..off + size])
    ensures |bytes| + |d| == size && bytes + d != img[off..off + size]
    ensures Faithful(crc, img, Singles(d, psn), off, size, 0, 0xff)
  {
    var n := |bytes|;
    if psn != 0xff {
      d := Fill(if img[off + n] == 0 then 1 else 0, size - n);
      Differs(bytes, d, img, off, size);
      OddIsFaithful(crc, img, off, size, d, psn);
    } else {
      d := img[off..off + size - n];
      assert d == img[off..off + size][..size - n];
      NothingIsHarmless(img[off..off + size]);
      FrontIsFaithful(crc, img, off, size, 0, d, psn);
    }
  }

  lemma NothingIsHarmless(want: seq<byte>)
    ensures Harmless(Continued([], 0xff), want)
  {
    assert [] + want[..|want|] == want;
  }

  lemma SpoilingHost(
    crc: Crc, img: seq<byte>, c: Ctx, fs: seq<Frame>, off: nat, at: nat, size: nat, garbage: nat)
    returns (script: seq<Answer>)
    requires |img| < 0x8000_0000 && off + size <= |img| && InRange(c, off, at, size)
    requires c.negotiated && Whole(fs) && c.rx == EncodeAll(fs)
    requires var r := FateOf(crc, fs, size, [], 0xff); r.Continued? && !Harmless(r, img[off..off + size])
    ensures HonestHost(crc, img, script)
    ensures !Exact(Read(crc, c.(script := script), off, at, size, garbage), at, size, img, off)
  {
    var r := FateOf(crc, fs, size, [], 0xff);
    hide Read, HonestHost, FateOf, EncodeAll, RequestBytes, Singles, AllWellFormed, OneAnswer, Faithful, Harmless;
    var d := SpoilingBytes(crc, img, r.bytes, r.psn, off, size);
    var gs := Singles(d, r.psn);
    CompletedFate(crc, fs, size, d);
    SinglesWhole(d, r.psn);
    var a := OneAnswer(RequestBytes(off, size), EncodeAll(gs));
    OneAnswerHonest(crc, img, off, size, gs, a);
    script := [a];
    SpoiledRead(crc, img, c, a, fs, gs, off, at, size, garbage);
  }

  lemma SpoiledRead(crc: Crc, img: seq<byte>, c: Ctx, a: Answer, fs: seq<Frame>, gs: seq<Frame>,
                    off: nat, at: nat, size: nat, garbage: nat)
    requires |img| < 0x8000_0000 && off + size <= |img| && InRange(c, off, at, size)
    requires c.negotiated && Whole(fs) && Whole(gs) && c.rx == EncodeAll(fs)
    requires a == OneAnswer(RequestBytes(off, size), EncodeAll(gs))
    requires var r := FateOf(crc, fs + gs, size, [], 0xff); r.Filled? && r.bytes != img[off..off + size]
    ensures !Exact(Read(crc, c.(script := [a]), off, at, size, garbage), at, size, img, off)
  {
    hide Read, FateOf, EncodeAll, RequestBytes, AllWellFormed, OneAnswer;
    OneAnswers(RequestBytes(off, size), EncodeAll(gs));
    FilledDecides(crc, c.(script := [a]), fs, gs, off, at, size, garbage);
  }

  function Fill(x: byte, n: nat): (d: seq<byte>)
    ensures |d| == n && forall i :: 0 <= i < n ==> d[i] == x
  {
    seq(n, _ => x)
  }

  /** The answer that sends `reply` for `request` and nothing for any other. */
  function OneAnswer(request: seq<byte>, reply: seq<byte>): Answer {
    Reply(q => if q == request then reply else [])
  }

  lemma OneAnswers(request: seq<byte>, reply: seq<byte>)
    ensures var a := OneAnswer(request, reply);
      a.Reply? && forall q :: a.to(q) == if q == request then reply else []
  {
  }

  /**
    With complete frames left in the link, a read is exact with every honest host
    if and only if one of them is refused, or they fill the window with just the
    right bytes, or the answer fits behind them: no data frame is among them, or
    a multiple of 256 whose bytes the range begins with and then repeats.
  */
  lemma LeftoverExactIff(
    crc: Crc, img: seq<byte>, c: Ctx, fs: seq<Frame>, off: nat, at: nat, size: nat, garbage: nat)
    requires |img| < 0x8000_0000 && off + size <= |img| && InRange(c, off, at, size)
    requires c.negotiated && Whole(fs) && c.rx == EncodeAll(fs)
    ensures AlwaysExact(crc, img, c, off, at, size, garbage)
      <==> Harmless(FateOf(crc, fs, size, [], 0xff), img[off..off + size])
  {
    hide Read, FateOf, Whole, EncodeAll, HonestHost, Exact;
    var r := FateOf(crc, fs, size, [], 0xff);
    if Harmless(r, img[off..off + size]) {
      forall script | HonestHost(crc, img, script)
        ensures Exact(Read(crc, c.(script := script), off, at, size, garbage), at, size, img, off)
      {
        HarmlessIsExact(crc, img, c.(script := script), fs, off, at, size, garbage);
      }
    } else {
      var script: seq<Answer> := [];
      if r.Continued? {
        script := SpoilingHost(crc, img, c, fs, off, at, size, garbage);
      } else {
        FilledSpoils(crc, img, c, fs, off, at, size, garbage);
      }
      assert HonestHost(crc, img, script);
    }
  }

  lemma FilledSpoils(
    crc: Crc, img: seq<byte>, c: Ctx, fs: seq<Frame>, off: nat, at: nat, size: nat, garbage: nat)
    requires |img| < 0x8000_0000 && off + size <= |img| && InRange(c, off, at, size)
    requires c.negotiated && Whole(fs) && c.rx == EncodeAll(fs)
    requires var r := FateOf(crc, fs, size, [], 0xff); r.Filled? && r.bytes != img[off..off + size]
    ensures HonestHost(crc, img, [])
    ensures !Exact(Read(crc, c.(script := []), off, at, size, garbage), at, size, img, off)
  {
    hide Read, FateOf, EncodeAll;
    assert fs + [] == fs;
    FilledDecides(crc, c.(script := []), fs, [], off, at, size, garbage);
  }

  /** For a single data frame: it is refused, or it is the answer. */
  lemma StaleFrameIff(crc: Crc, img: seq<byte>, c: Ctx, f: Frame, off: nat, at: nat, size: nat, garbage: nat)
    requires |img| < 0x8000_0000 && off + size <= |img| && InRange(c, off, at, size) && 0 < size
    requires c.negotiated && IsData(f) && WellFormed(f) && c.rx == Encode(f)
    ensures AlwaysExact(crc, img, c, off, at, size, garbage)
      <==> !Accepted(crc, f, size, 0, 0xff) || f.payload == img[off..off + size]
  {
    hide Encode, AlwaysExact;
    assert EncodeAll([f]) == Encode(f) + EncodeAll([]) == Encode(f);
    LeftoverExactIff(crc, img, c, [f], off, at, size, garbage);
    assert [f][1..] == [];
    if Accepted(crc, f, size, 0, 0xff) {
      assert [] + f.payload == f.payload;
      assert FateOf(crc, [f], size, [], 0xff) == FateOf(crc, [], size, f.payload, f.psn);
    }
  }
}
