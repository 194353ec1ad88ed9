/** What a read delivers: exactly the image range, from any honest host; and when it is sure to finish. */
module OtaExact {
  import opened Basics
  import opened OtaBytes
  import opened OtaDevice
  import opened OtaHost

  /** The bytes of the window received so far are the image's. */
  ghost predicate Copied(c: Ctx, img: seq<byte>, off: nat, n: nat)
    requires c.base + n <= |c.mem| && off + n <= |img|
  {
    c.mem[c.base..c.base + n] == img[off..off + n]
  }

  lemma SplitFront(b: seq<byte>, fs: seq<Frame>) returns (rest: seq<byte>)
    requires CutFrom(b, fs) && fs != [] && |Encode(fs[0])| <= |b|
    ensures b == Encode(fs[0]) + rest && CutFrom(rest, fs[1..])
  {
    hide Encode;
    var e, more := Encode(fs[0]), EncodeAll(fs[1..]);
    assert EncodeAll(fs) == e + more;
    assert b == (e + more)[..|b|];
    rest := b[|e|..];
    assert b == e + rest && rest == more[..|rest|];
  }

  lemma SegmentCopied(c: Ctx, f: Frame, tail: seq<byte>, img: seq<byte>, off: nat)
    requires c.Valid() && IsData(f) && |f.payload| <= c.len - c.done && off + c.len <= |img|
    requires Copied(c, img, off, c.done)
    requires f.payload == img[off + c.done..off + c.done + |f.payload|]
    ensures Copied(Stored(c, f, tail), img, off, c.done + |f.payload|)
  {
    var m, at := Stored(c, f, tail).mem, c.base + c.done;
    assert m[c.base..at] == c.mem[c.base..at];
    assert m[at..at + |f.payload|] == f.payload;
    assert m[c.base..at + |f.payload|] == m[c.base..at] + m[at..at + |f.payload|];
    assert img[off..off + c.done + |f.payload|] == img[off..off + c.done] + f.payload;
  }

  /** After a restart inside the window, the part received before it stays. */
  lemma Joined(m: seq<byte>, m': seq<byte>, img: seq<byte>, base: nat, off: nat, n: nat, size: nat)
    requires n <= size && base + size <= |m| && off + size <= |img|
    requires Untouched(m, m', base + n, base + size)
    requires m[base..base + n] == img[off..off + n]
    requires m'[base + n..base + size] == img[off + n..off + size]
    ensures m'[base..base + size] == img[off..off + size]
  {
    assert m'[base..base + n] == m[base..base + n];
    assert m'[base..base + size] == m'[base..base + n] + m'[base + n..base + size];
    assert img[off..off + size] == img[off..off + n] + img[off + n..off + size];
  }

  ghost predicate Delivered(r: (Ctx, bool), at: nat, size: nat, img: seq<byte>, off: nat)
    requires at + size <= |r.0.mem| && off + size <= |img|
  {
    r.1 ==> r.0.mem[at..at + size] == img[off..off + size] && r.0.rx == []
  }

  lemma {:induction false} TryAgainExact(
    crc: Crc, img: seq<byte>, c: Ctx, off: nat, at: nat, size: nat, retried: bool, processed: nat)
    requires |img| < 0x8000_0000 && off + size <= |img| && InRange(c, off, at, size)
    requires c.rx == [] && HonestHost(crc, img, c.script)
    ensures Delivered(TryAgain(crc, c, off, at, size, retried, processed), at, size, img, off)
    decreases if retried then 0 else 1, |c.script|, |c.rx|, 1
  {
    hide Loop, RequestBytes, ReadRequest;
    var q := Require(c, off, at, size);
    if q.1 {
      var fs: seq<Frame> := [];
      if c.script != [] {
        var b := c.script[0].to(RequestBytes(off, size));
        RequestRoundTrip(off, size);
        assert HonestTo(crc, img, RequestBytes(off, size), b);
        assert HonestReply(crc, img, b, off, size);
        fs :| CutFrom(b, fs) && Faithful(crc, img, fs, off, size, 0, 0xff);
        assert c.rx + b == b;
      }
      assert EncodeAll([]) == [];
      LoopExact(crc, img, q.0, fs, off, size, retried, processed);
    }
  }

  /** The loop invariant of the read: what is still in the link is the tail of an honest answer. */
  lemma {:induction false} LoopExact(
    crc: Crc, img: seq<byte>, c: Ctx, fs: seq<Frame>, off: nat, size: nat, retried: bool, processed: nat)
    requires |img| < 0x8000_0000 && off + size <= |img| && HonestHost(crc, img, c.script)
    requires c.Valid() && c.idle && c.len == size && Copied(c, img, off, c.done)
    requires CutFrom(c.rx, fs) && Faithful(crc, img, fs, off, size, c.done, c.psn)
    ensures Delivered(Loop(crc, c, off, size, retried, processed), c.base, size, img, off)
    decreases if retried then 0 else 1, |c.script|, |c.rx|, 0
  {
    hide Process, TryAgain;
    if c.done == size {
      assert EncodeAll(fs) == [];
    } else {
      if fs == [] || |c.rx| < |Encode(fs[0])| {
        NoFrameFails(crc, c, fs, processed);
        FailExact(crc, img, c, off, size, retried, processed);
      } else {
        var rest := SplitFront(c.rx, fs);
        if IsData(fs[0]) {
          DataExact(crc, img, c, fs, rest, off, size, retried, processed);
        } else {
          OtherExact(crc, img, c, fs, rest, off, size, retried, processed);
        }
      }
    }
  }

  ghost predicate AtFrame(crc: Crc, img: seq<byte>, c: Ctx, fs: seq<Frame>, rest: seq<byte>, off: nat, size: nat)
    requires |img| < 0x8000_0000
  {
    && off + size <= |img| && HonestHost(crc, img, c.script)
    && c.Valid() && c.idle && c.len == size && c.done != size && Copied(c, img, off, c.done)
    && fs != [] && CutFrom(rest, fs[1..]) && WellFormed(fs[0]) && c.rx == Encode(fs[0]) + rest
    && Faithful(crc, img, fs, off, size, c.done, c.psn)
  }

  lemma {:induction false} DataExact(
    crc: Crc, img: seq<byte>, c: Ctx, fs: seq<Frame>, rest: seq<byte>,
    off: nat, size: nat, retried: bool, processed: nat)
    requires |img| < 0x8000_0000 && AtFrame(crc, img, c, fs, rest, off, size) && IsData(fs[0])
    ensures Delivered(Loop(crc, c, off, size, retried, processed), c.base, size, img, off)
    decreases if retried then 0 else 1, |c.script|, |c.rx|, 0, 1
  {
    hide Process, TryAgain, Encode, Accepted, HonestHost, Delivered, WellFormed, Copied, Patch, CutFrom;
    var p, f := Process(crc, c, processed), fs[0];
    DataFrameRead(crc, c, f, rest, processed);
    if Accepted(crc, f, size, c.done, c.psn) {
      assert |f.payload| <= size - c.done by { AcceptedFits(crc, f, size, c.done, c.psn); }
      SegmentCopied(c, f, rest, img, off);
      LoopExact(crc, img, p.0, fs[1..], off, size, retried, p.2);
    } else {
      FailExact(crc, img, c, off, size, retried, processed);
    }
  }

  lemma AcceptedFits(crc: Crc, f: Frame, len: nat, done: nat, psn: byte)
    requires IsData(f) && done <= len && Accepted(crc, f, len, done, psn)
    ensures |f.payload| <= len - done
  {
  }

  lemma LoopRestarts(crc: Crc, c: Ctx, off: nat, size: nat, retried: bool, processed: nat)
    requires c.Valid() && c.len == size && InRange(c, off, c.base, size) && c.done != size
    requires Process(crc, c, processed).1 && Process(crc, c, processed).2 == CmdNegotiationResult
    ensures var p := Process(crc, c, processed);
      Loop(crc, c, off, size, retried, processed)
      == TryAgain(crc, p.0, off + p.0.done, c.base + p.0.done, size - p.0.done, retried, p.2)
  {
    hide Process, TryAgain;
  }

  lemma {:induction false} OtherExact(
    crc: Crc, img: seq<byte>, c: Ctx, fs: seq<Frame>, rest: seq<byte>,
    off: nat, size: nat, retried: bool, processed: nat)
    requires |img| < 0x8000_0000 && AtFrame(crc, img, c, fs, rest, off, size) && !IsData(fs[0])
    ensures Delivered(Loop(crc, c, off, size, retried, processed), c.base, size, img, off)
    decreases if retried then 0 else 1, |c.script|, |c.rx|, 0, 1
  {
    hide Process, TryAgain, Encode, HonestHost, Delivered, WellFormed;
    var p := Process(crc, c, processed);
    OtherFrameRead(crc, c, fs[0], rest, processed);
    if fs[0].Result? {
      assert rest == [];
      hide Faithful, CutFrom, Loop;
      assert Loop(crc, c, off, size, retried, processed)
          == TryAgain(crc, p.0, off + c.done, c.base + c.done, size - c.done, retried, p.2) by {
        LoopRestarts(crc, c, off, size, retried, processed);
      }
      RestartExact(crc, img, c, p.0, off, size, retried, p.2);
    } else {
      LoopExact(crc, img, p.0, fs[1..], off, size, retried, p.2);
    }
  }

  /** A restart after renegotiation fetches the rest of the window and keeps what came before. */
  lemma {:induction false} RestartExact(
    crc: Crc, img: seq<byte>, c: Ctx, c': Ctx, off: nat, size: nat, retried: bool, processed: nat)
    requires |img| < 0x8000_0000 && off + size <= |img| && HonestHost(crc, img, c'.script)
    requires c.Valid() && c.len == size && Copied(c, img, off, c.done)
    requires c'.mem == c.mem && c'.script == c.script && c'.rx == [] && |c'.rx| < |c.rx|
    ensures var r := TryAgain(crc, c', off + c.done, c.base + c.done, size - c.done, retried, processed);
      Delivered(r, c.base, size, img, off)
    decreases if retried then 0 else 1, |c.script|, |c.rx|, 0, 0
  {
    hide TryAgain, HonestHost;
    var n := c.done;
    TryAgainExact(crc, img, c', off + n, c.base + n, size - n, retried, processed);
    var r := TryAgain(crc, c', off + n, c.base + n, size - n, retried, processed);
    if r.1 {
      TryAgainInside(crc, c', off + n, c.base + n, size - n, retried, processed);
      Joined(c.mem, r.0.mem, img, c.base, off, n, size);
    }
  }

  lemma NoFrameFails(crc: Crc, c: Ctx, fs: seq<Frame>, processed: nat)
    requires c.Valid() && CutFrom(c.rx, fs) && (fs == [] || |c.rx| < |Encode(fs[0])|)
    ensures !Process(crc, c, processed).1
  {
    if fs == [] {
      assert EncodeAll(fs) == [];
    } else {
      assert c.rx == (Encode(fs[0]) + EncodeAll(fs[1..]))[..|c.rx|] == Encode(fs[0])[..|c.rx|];
      CutFrameFails(crc, c, fs[0], processed);
    }
  }

  /** A failed command ends the read, or drains the link and asks for the whole remainder again. */
  lemma {:induction false} FailExact(
    crc: Crc, img: seq<byte>, c: Ctx, off: nat, size: nat, retried: bool, processed: nat)
    requires |img| < 0x8000_0000 && off + size <= |img| && HonestHost(crc, img, c.script)
    requires c.Valid() && c.len == size && c.done != size && !Process(crc, c, processed).1
    ensures Delivered(Loop(crc, c, off, size, retried, processed), c.base, size, img, off)
    decreases if retried then 0 else 1, |c.script|, |c.rx|, 0, 0
  {
    hide Process, TryAgain;
    if !retried {
      var p := Process(crc, c, processed);
      TryAgainExact(crc, img, p.0.(rx := [], idle := true), off, c.base, size, true, p.2);
    }
  }

  /** A frame that has nothing to do with a transfer. */
  predicate Idle(f: Frame) { f.Connect? || f.Upgrade? }

  lemma {:induction false} EncodeBoth(fs: seq<Frame>, gs: seq<Frame>)
    requires AllWellFormed(fs) && AllWellFormed(gs)
    ensures AllWellFormed(fs + gs) && EncodeAll(fs + gs) == EncodeAll(fs) + EncodeAll(gs)
    decreases |fs|
  {
    hide Encode, WellFormed;
    if fs == [] {
      assert fs + gs == gs && EncodeAll(fs) == [];
    } else {
      assert (fs + gs)[0] == fs[0] && (fs + gs)[1..] == fs[1..] + gs;
      EncodeBoth(fs[1..], gs);
      assert fs[0] in fs;
      var a, b, c := Encode(fs[0]), EncodeAll(fs[1..]), EncodeAll(gs);
      assert a + (b + c) == a + b + c;
    }
  }

  lemma {:induction false} FaithfulBehind(
    crc: Crc, img: seq<byte>, ns: seq<Frame>, fs: seq<Frame>, off: nat, len: nat)
    requires off + len <= |img| && 0 < len && (forall f :: f in ns ==> Idle(f))
    requires Faithful(crc, img, fs, off, len, 0, 0xff)
    ensures Faithful(crc, img, ns + fs, off, len, 0, 0xff)
    decreases |ns|
  {
    if ns == [] {
      assert ns + fs == fs;
    } else {
      assert Idle(ns[0]) && (ns + fs)[1..] == ns[1..] + fs;
      FaithfulBehind(crc, img, ns[1..], fs, off, len);
    }
  }

  /** The whole buffer holds the image range, if the read reports success. */
  ghost predicate Exact(r: (Ctx, bool), at: nat, size: nat, img: seq<byte>, off: nat)
    requires at + size <= |r.0.mem| && off + size <= |img|
  {
    r.1 ==> r.0.mem[at..at + size] == img[off..off + size]
  }

  /**
    A read that reports success has filled the caller's whole buffer with the
    image bytes it asked for, and leaves nothing unread in the link, so the next
    read starts clean again.  This covers every cut, corruption detected by
    sequence number or checksum, any number of renegotiations, the retry, and
    connection and upgrade frames `ns` still in the link from before.
  */
  lemma ReadExact(
    crc: Crc, img: seq<byte>, c: Ctx, ns: seq<Frame>, off: nat, at: nat, size: nat, garbage: nat)
    requires |img| < 0x8000_0000 && off + size <= |img| && InRange(c, off, at, size)
    requires AllWellFormed(ns) && (forall f :: f in ns ==> Idle(f)) && c.rx == EncodeAll(ns)
    requires HonestHost(crc, img, c.script)
    ensures Exact(Read(crc, c, off, at, size, garbage), at, size, img, off)
    ensures 0 < size || ns == [] ==> Delivered(Read(crc, c, off, at, size, garbage), at, size, img, off)
  {
    hide Loop, Encode, RequestBytes, ReadRequest;
    if ns == [] {
      TryAgainExact(crc, img, c, off, at, size, false, garbage);
    } else if size == 0 {
      assert img[off..off] == [];
    } else {
      var q := Require(c, off, at, size);
      if q.1 {
        var fs: seq<Frame>, b: seq<byte> := [], [];
        assert EncodeAll([]) == [];
        if c.script != [] {
          b := c.script[0].to(RequestBytes(off, size));
          RequestRoundTrip(off, size);
          assert HonestTo(crc, img, RequestBytes(off, size), b);
          assert HonestReply(crc, img, b, off, size);
          fs :| CutFrom(b, fs) && Faithful(crc, img, fs, off, size, 0, 0xff);
        }
        EncodeBoth(ns, fs);
        FaithfulBehind(crc, img, ns, fs, off, size);
        assert q.0.rx == EncodeAll(ns) + b <= EncodeAll(ns + fs);
        LoopExact(crc, img, q.0, ns + fs, off, size, false, garbage);
      }
    }
  }

  // ----- when a read is sure to finish -----

  /** A whole answer, every data frame acceptable; a final one does not renegotiate. */
  ghost predicate Complete(crc: Crc, fs: seq<Frame>, len: nat, done: nat, psn: byte, final: bool)
    requires done <= len
    decreases |fs|
  {
    if done == len then fs == []
    else if fs == [] then false
    else
      var f := fs[0];
      if f.Result? then |fs| == 1 && !final
      else if !IsData(f) then Complete(crc, fs[1..], len, done, psn, final)
      else Accepted(crc, f, len, done, psn) && Complete(crc, fs[1..], len, done + |f.payload|, f.psn, final)
  }

  ghost predicate CompleteReply(crc: Crc, b: seq<byte>, len: nat, final: bool) {
    exists fs :: AllWellFormed(fs) && b == EncodeAll(fs) && Complete(crc, fs, len, 0, 0xff, final)
  }

  ghost predicate AnswersFully(crc: Crc, a: Answer, final: bool) {
    a.Reply? && forall q :: ReadRequest(q).Some? ==> CompleteReply(crc, a.to(q), ReadRequest(q).value.1, final)
  }

  /** The host answers in full, renegotiating only finitely often before an answer that goes through. */
  ghost predicate Obliging(crc: Crc, script: seq<Answer>) {
    script != [] && (AnswersFully(crc, script[0], true)
                     || (AnswersFully(crc, script[0], false) && Obliging(crc, script[1..])))
  }

  lemma {:induction false} TryAgainFinishes(
    crc: Crc, c: Ctx, off: nat, at: nat, size: nat, retried: bool, processed: nat)
    requires InRange(c, off, at, size) && c.rx == [] && c.negotiated && Obliging(crc, c.script)
    ensures TryAgain(crc, c, off, at, size, retried, processed).1
    decreases |c.script|, |c.rx|, 1
  {
    hide Loop, RequestBytes, ReadRequest;
    var q := Require(c, off, at, size);
    var final := AnswersFully(crc, c.script[0], true);
    var b := c.script[0].to(RequestBytes(off, size));
    assert c.rx + b == b;
    RequestRoundTrip(off, size);
    assert CompleteReply(crc, b, size, final);
    var fs :| AllWellFormed(fs) && b == EncodeAll(fs) && Complete(crc, fs, size, 0, 0xff, final);
    LoopFinishes(crc, q.0, fs, off, size, final, retried, processed);
  }

  lemma {:induction false} LoopFinishes(
    crc: Crc, c: Ctx, fs: seq<Frame>, off: nat, size: nat, final: bool, retried: bool, processed: nat)
    requires c.Valid() && c.idle && c.negotiated && c.len == size && InRange(c, off, c.base, size)
    requires AllWellFormed(fs) && c.rx == EncodeAll(fs)
    requires Complete(crc, fs, size, c.done, c.psn, final) && (final || Obliging(crc, c.script))
    ensures Loop(crc, c, off, size, retried, processed).1
    decreases |c.script|, |c.rx|, 0
  {
    hide Process, TryAgain, Encode, Accepted, Obliging;
    if c.done != size {
      var p, f, rest := Process(crc, c, processed), fs[0], EncodeAll(fs[1..]);
      if IsData(f) {
        DataFrameRead(crc, c, f, rest, processed);
        LoopFinishes(crc, p.0, fs[1..], off, size, final, retried, p.2);
      } else {
        OtherFrameRead(crc, c, f, rest, processed);
        if f.Result? {
          TryAgainFinishes(crc, p.0, off + c.done, c.base + c.done, size - c.done, retried, p.2);
        } else {
          LoopFinishes(crc, p.0, fs[1..], off, size, final, retried, p.2);
        }
      }
    }
  }

  /** A clean link and an obliging host make the read succeed. */
  lemma ReadFinishes(crc: Crc, c: Ctx, off: nat, at: nat, size: nat, garbage: nat)
    requires InRange(c, off, at, size) && c.rx == [] && c.negotiated && Obliging(crc, c.script)
    ensures Read(crc, c, off, at, size, garbage).1
  {
    TryAgainFinishes(crc, c, off, at, size, false, garbage);
  }

  /** A failed command is made up for exactly once: the link is drained and an obliging host asked again. */
  lemma RetryOnce(crc: Crc, c: Ctx, off: nat, size: nat, retried: bool, processed: nat)
    requires c.Valid() && c.len == size && InRange(c, off, c.base, size) && c.done < size
    requires c.negotiated && Obliging(crc, c.script) && !Process(crc, c, processed).1
    ensures Loop(crc, c, off, size, retried, processed).1 <==> !retried
  {
    hide Process, Obliging, TryAgain;
    var p := Process(crc, c, processed);
    if !retried {
      TryAgainFinishes(crc, p.0.(rx := [], idle := true), off, c.base, size, true, p.2);
    }
  }

  /** So rubbish in front of an answer costs a request, but not the read. */
  lemma ReadRecovers(crc: Crc, c: Ctx, off: nat, at: nat, size: nat, garbage: nat)
    requires InRange(c, off, at, size) && c.negotiated && 0 < size && 5 <= |c.rx|
    requires c.rx[0] != 9 || c.rx[2] != 0x80
    requires c.script != [] && c.script[0].Reply? && Obliging(crc, c.script[1..])
    ensures Read(crc, c, off, at, size, garbage).1
  {
    hide Process, Obliging, Loop, RequestBytes;
    var q := Require(c, off, at, size).0;
    assert q.rx == c.rx + c.script[0].to(RequestBytes(off, size));
    HeaderTaken(crc, q, garbage);
    RetryOnce(crc, q, off, size, false, garbage);
  }

  // ----- why the link has to be clean -----

  /**
    The operation opens its window without draining the link and sequence
    numbers restart at zero with every request, so one data frame left over from
    an earlier exchange decides the result, whatever the host answers.
  */
  lemma StaleFrameAccepted(crc: Crc, c: Ctx, stale: seq<byte>, off: nat, at: nat, size: nat, garbage: nat)
    requires InRange(c, off, at, size) && c.negotiated && 0 < size == |stale| < 0xffff
    requires c.script == [] || c.script[0].Reply?
    requires c.rx == Encode(Data(0, stale))
    ensures var r := Read(crc, c, off, at, size, garbage); r.1 && r.0.mem[at..at + size] == stale
  {
    hide Process;
    var f, q := Data(0, stale), Require(c, off, at, size).0;
    var tail := if c.script == [] then [] else c.script[0].to(RequestBytes(off, size));
    assert q.rx == Encode(f) + tail;
    DataFrameRead(crc, q, f, tail, garbage);
    var done := Stored(q, f, tail);
    assert done.mem[at..at + size] == stale;
    assert Process(crc, q, garbage) == (done, true, CmdSendImageData as nat);
    assert Loop(crc, done, off, size, false, CmdSendImageData) == (done, true);
    assert Loop(crc, q, off, size, false, garbage) == (done, true);
    assert Read(crc, c, off, at, size, garbage) == Loop(crc, q, off, size, false, garbage);
  }
}
