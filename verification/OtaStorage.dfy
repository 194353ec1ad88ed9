/**
  OTA storage over a flash device.  NOR flash is written, read and erased in
  segments; SD cards and NAND in 512-byte sectors with the last one padded.  A
  device operation can fail, and fails when it leaves the device; `faults` is
  the order in which the device will do so.
*/
module OtaStorage {
  import opened Basics

  const SECTOR := 512
  const PAGE := 4096
  const READ_SEG := 128

  // ----- flat memory -----

  function Splice(mem: seq<byte>, off: nat, data: seq<byte>): (r: seq<byte>)
    requires off + |data| <= |mem|
    ensures |r| == |mem|
  {
    mem[..off] + data + mem[off + |data|..]
  }

  function Const(b: byte, n: nat): (s: seq<byte>)
    ensures |s| == n && forall i :: 0 <= i < n ==> s[i] == b
  {
    seq(n, _ => b)
  }

  /** Two neighbouring writes are one. */
  lemma SpliceSplice(mem: seq<byte>, off: nat, a: seq<byte>, b: seq<byte>)
    requires off + |a| + |b| <= |mem|
    ensures Splice(Splice(mem, off, a), off + |a|, b) == Splice(mem, off, a + b)
  {
  }

  lemma SpliceNothing(mem: seq<byte>, off: nat)
    requires off <= |mem|
    ensures Splice(mem, off, []) == mem
  {
  }

  /** The next piece of a longer write. */
  lemma SpliceNext(mem: seq<byte>, off: nat, data: seq<byte>, i: nat, j: nat)
    requires i <= j <= |data| && off + j <= |mem|
    ensures Splice(Splice(mem, off, data[..i]), off + i, data[i..j]) == Splice(mem, off, data[..j])
  {
    SpliceSplice(mem, off, data[..i], data[i..j]);
    assert data[..i] + data[i..j] == data[..j];
  }

  lemma SpliceStart(mem: seq<byte>, off: nat, data: seq<byte>)
    requires off <= |mem|
    ensures Splice(mem, off, data[..0]) == mem && data[..|data|] == data
  {
    SpliceNothing(mem, off);
    assert data[..0] == [];
  }

  lemma ConstSlice(b: byte, n: nat, i: nat, j: nat)
    requires i <= j <= n
    ensures Const(b, n)[i..j] == Const(b, j - i)
  {
  }

  /** What was written is read back, and no other byte changes. */
  lemma ReadsBack(mem: seq<byte>, off: nat, data: seq<byte>)
    requires off + |data| <= |mem|
    ensures Splice(mem, off, data)[off..off + |data|] == data
    ensures forall i :: 0 <= i < |mem| && !(off <= i < off + |data|) ==> Splice(mem, off, data)[i] == mem[i]
  {
  }

  predicate AllFf(s: seq<byte>) { forall i :: 0 <= i < |s| ==> s[i] == 0xff }

  function Sectors(n: nat): nat { n / SECTOR + (if n % SECTOR != 0 then 1 else 0) }

  /** Data filled up with zeros to whole sectors. */
  function Padded(data: seq<byte>): (r: seq<byte>)
    ensures |r| == Sectors(|data|) * SECTOR && data <= r
    ensures forall i :: |data| <= i < |r| ==> r[i] == 0
  {
    data + Const(0, Sectors(|data|) * SECTOR - |data|)
  }

  // ----- the device -----

  class Flash {
    const mem: array<byte>
    var faults: seq<bool>

    constructor (mem: array<byte>, faults: seq<bool>)
      ensures this.mem == mem && this.faults == faults
    {
      this.mem, this.faults := mem, faults;
    }

    method Fails() returns (fails: bool)
      modifies this`faults
      ensures old(faults) == [] ==> !fails && faults == []
    {
      fails := false;
      if faults != [] {
        fails := faults[0];
        faults := faults[1..];
      }
    }

    method Write(off: nat, data: seq<byte>) returns (ok: bool)
      modifies this`faults, mem
      ensures ok ==> off + |data| <= mem.Length && mem[..] == Splice(old(mem[..]), off, data)
      ensures !ok ==> mem[..] == old(mem[..])
      ensures old(faults) == [] ==> faults == [] && (ok <==> off + |data| <= mem.Length)
    {
      var fails := Fails();
      if fails || off + |data| > mem.Length { return false; }
      for i := 0 to |data|
        invariant forall k :: 0 <= k < mem.Length ==>
          mem[k] == if off <= k < off + i then data[k - off] else old(mem[k])
        modifies mem
      {
        mem[off + i] := data[i];
      }
      return true;
    }

    method Read(off: nat, n: nat) returns (ok: bool, data: seq<byte>)
      modifies this`faults
      ensures ok ==> off + n <= mem.Length && data == mem[off..off + n]
      ensures !ok ==> data == []
      ensures old(faults) == [] ==> faults == [] && (ok <==> off + n <= mem.Length)
    {
      var fails := Fails();
      if fails || off + n > mem.Length { return false, []; }
      return true, mem[off..off + n];
    }

    method Erase(off: nat, n: nat) returns (ok: bool)
      modifies this`faults, mem
      ensures ok ==> off + n <= mem.Length && mem[..] == Splice(old(mem[..]), off, Const(0xff, n))
      ensures !ok ==> mem[..] == old(mem[..])
      ensures old(faults) == [] ==> faults == [] && (ok <==> off + n <= mem.Length)
    {
      ok := Write(off, Const(0xff, n));
    }
  }

  // ----- NOR flash, segment by segment -----

  /** The first `k` bytes of `data` are written at `off`; before any are, the offset may be anywhere. */
  ghost predicate Wrote(mem: seq<byte>, mem': seq<byte>, off: nat, data: seq<byte>, k: nat) {
    k <= |data| && if k == 0 then mem' == mem else off + k <= |mem| && mem' == Splice(mem, off, data[..k])
  }

  ghost predicate Began(mem: seq<byte>, mem': seq<byte>, off: nat, data: seq<byte>) {
    exists k: nat :: Wrote(mem, mem', off, data, k)
  }

  lemma WroteNext(mem: seq<byte>, mem': seq<byte>, off: nat, data: seq<byte>, i: nat, j: nat)
    requires Wrote(mem, mem', off, data, i) && i <= j <= |data| && off + j <= |mem|
    ensures Wrote(mem, Splice(mem', off + i, data[i..j]), off, data, j)
  {
    SpliceStart(mem, off, data);
    SpliceNext(mem, off, data, i, j);
  }

  /** A finished write reads back, and no byte outside its range changed. */
  lemma WriteThenRead(mem: seq<byte>, mem': seq<byte>, off: nat, data: seq<byte>)
    requires Wrote(mem, mem', off, data, |data|) && data != []
    ensures |mem'| == |mem| && off + |data| <= |mem| && mem'[off..off + |data|] == data
    ensures forall i :: 0 <= i < |mem| && !(off <= i < off + |data|) ==> mem'[i] == mem[i]
  {
    assert data[..|data|] == data;
    ReadsBack(mem, off, data);
  }

  /** A write to SD reads back as well; behind it, up to the end of its last sector, are zeros. */
  lemma WriteSdThenRead(mem: seq<byte>, mem': seq<byte>, off: nat, buf: seq<byte>)
    requires Wrote(mem, mem', off, Padded(buf), |Padded(buf)|) && buf != []
    ensures var n := |Padded(buf)|;
      && |mem'| == |mem| && off + |buf| <= off + n <= |mem| && mem'[off..off + |buf|] == buf
      && (forall i :: off + |buf| <= i < off + n ==> mem'[i] == 0)
      && (forall i :: 0 <= i < |mem| && !(off <= i < off + n) ==> mem'[i] == mem[i])
  {
    var all := Padded(buf);
    WriteThenRead(mem, mem', off, all);
    assert mem'[off..off + |buf|] == mem'[off..off + |all|][..|buf|];
    forall i | off + |buf| <= i < off + |all| ensures mem'[i] == 0 {
      assert mem'[i] == mem'[off..off + |all|][i - off];
    }
  }

  /** ota_storage_write_default, in segments of at most `seg` bytes. */
  method WriteDefault(dev: Flash, seg: nat, offs: nat, buf: seq<byte>) returns (ok: bool)
    requires 0 < seg
    modifies dev`faults, dev.mem
    ensures ok ==> Wrote(old(dev.mem[..]), dev.mem[..], offs, buf, |buf|)
    ensures !ok ==> Began(old(dev.mem[..]), dev.mem[..], offs, buf)
    ensures old(dev.faults) == [] && offs + |buf| <= dev.mem.Length ==> ok
  {
    hide Splice;
    ghost var mem := dev.mem[..];
    var done, wlen := 0, seg;
    while done < |buf|
      invariant Wrote(mem, dev.mem[..], offs, buf, done) && (done < |buf| ==> wlen == seg)
      invariant old(dev.faults) == [] ==> dev.faults == []
    {
      if |buf| - done < seg { wlen := |buf| - done; }
      ghost var before := dev.mem[..];
      var w := dev.Write(offs + done, buf[done..done + wlen]);
      if !w { return false; }
      WroteNext(mem, before, offs, buf, done, done + wlen);
      done := done + wlen;
    }
    return true;
  }

  /** ota_storage_read_default, in segments of 128 bytes. */
  method ReadDefault(dev: Flash, offs: nat, size: nat) returns (ok: bool, data: seq<byte>)
    modifies dev`faults
    ensures ok ==> |data| == size && (0 < size ==> offs + size <= dev.mem.Length && data == dev.mem[offs..offs + size])
    ensures old(dev.faults) == [] && offs + size <= dev.mem.Length ==> ok
  {
    data := [];
    while |data| < size
      invariant |data| <= size && (old(dev.faults) == [] ==> dev.faults == [])
      invariant 0 < |data| ==> offs + |data| <= dev.mem.Length && data == dev.mem[offs..offs + |data|]
    {
      var r, part := dev.Read(offs + |data|, Min(READ_SEG, size - |data|));
      if !r { return false, data; }
      data := data + part;
    }
    return true, data;
  }

  /** ota_storage_erase_spinor, page by page. */
  method EraseNor(dev: Flash, offs: nat, size: nat) returns (ok: bool)
    modifies dev`faults, dev.mem
    ensures ok ==> Wrote(old(dev.mem[..]), dev.mem[..], offs, Const(0xff, size), size)
    ensures !ok ==> Began(old(dev.mem[..]), dev.mem[..], offs, Const(0xff, size))
    ensures old(dev.faults) == [] ==> dev.faults == [] && (offs + size <= dev.mem.Length ==> ok)
  {
    hide Splice, Const;
    ghost var mem, all := dev.mem[..], Const(0xff, size);
    var done := 0;
    while done < size
      invariant Wrote(mem, dev.mem[..], offs, all, done) && (old(dev.faults) == [] ==> dev.faults == [])
    {
      var n := Min(PAGE, size - done);
      ConstSlice(0xff, size, done, done + n);
      ghost var before := dev.mem[..];
      var e := dev.Erase(offs + done, n);
      if !e { return false; }
      WroteNext(mem, before, offs, all, done, done + n);
      done := done + n;
    }
    return true;
  }

  // ----- SD and NAND, sector by sector -----

  /** ota_storage_write_sd_nand; `room` says whether the sector buffer can be allocated. */
  method WriteSd(dev: Flash, offs: nat, buf: seq<byte>, room: bool) returns (ok: bool)
    modifies dev`faults, dev.mem
    ensures offs % SECTOR != 0 ==> !ok && dev.mem[..] == old(dev.mem[..])
    ensures ok ==> Wrote(old(dev.mem[..]), dev.mem[..], offs, Padded(buf), |Padded(buf)|)
    ensures !ok ==> Began(old(dev.mem[..]), dev.mem[..], offs, Padded(buf))
    ensures old(dev.faults) == [] && room && offs % SECTOR == 0 && offs + |Padded(buf)| <= dev.mem.Length ==> ok
  {
    hide Splice, Const;
    ghost var mem, all := dev.mem[..], Padded(buf);
    assert Wrote(mem, mem, offs, all, 0);
    if offs % SECTOR != 0 { return false; }
    var count, left := |buf| / SECTOR, |buf| % SECTOR;
    var whole := count * SECTOR;
    PaddedParts(buf, whole);
    hide Padded;
    if count != 0 {
      var w := dev.Write(offs, buf[..whole]);
      if !w { return false; }
    }
    ghost var before := dev.mem[..];
    assert Wrote(mem, before, offs, all, whole);
    if left != 0 {
      if !room { return false; }
      var w := dev.Write(offs + whole, buf[whole..] + Const(0, SECTOR - left));
      if !w { return false; }
      WroteNext(mem, before, offs, all, whole, |all|);
    }
    return true;
  }

  lemma PaddedParts(buf: seq<byte>, whole: nat)
    requires whole == |buf| / SECTOR * SECTOR
    ensures var all, left := Padded(buf), |buf| % SECTOR;
      && whole <= |all| && all[..whole] == buf[..whole]
      && (left == 0 ==> |all| == whole)
      && (left != 0 ==> |all| == whole + SECTOR && all[whole..|all|] == buf[whole..] + Const(0, SECTOR - left))
  {
    var all, left := Padded(buf), |buf| % SECTOR;
    if left != 0 {
      var tail := buf[whole..] + Const(0, SECTOR - left);
      assert |all[whole..]| == SECTOR == |tail|;
      forall i | 0 <= i < SECTOR ensures all[whole..][i] == tail[i] {
      }
    }
  }

  /** ota_storage_read_sd_nand. */
  method ReadSd(dev: Flash, offs: nat, size: nat, room: bool) returns (ok: bool, data: seq<byte>)
    modifies dev`faults
    ensures ok ==> offs % SECTOR == 0 && (room || size % SECTOR == 0)
    ensures old(dev.faults) == [] ==> dev.faults == []
    ensures old(dev.faults) == [] && offs % SECTOR == 0 && (room || size % SECTOR == 0) ==>
      (offs + Sectors(size) * SECTOR <= dev.mem.Length ==> ok)
    ensures ok ==> |data| == size && (0 < size ==> offs + size <= dev.mem.Length && data == dev.mem[offs..offs + size])
  {
    data := [];
    if offs % SECTOR != 0 { return false, []; }
    var count, left := size / SECTOR, size % SECTOR;
    if count != 0 {
      ok, data := dev.Read(offs, count * SECTOR);
      if !ok { return false, []; }
    }
    if left != 0 {
      if !room { return false, []; }
      var r, last := dev.Read(offs + count * SECTOR, SECTOR);
      if !r { return false, []; }
      data := data + last[..left];
    }
    return true, data;
  }

  /** ota_storage_erase_sd_nand: whole sectors, also behind the end of an odd size. */
  method EraseSd(dev: Flash, offs: nat, size: nat, room: bool) returns (ok: bool)
    modifies dev`faults, dev.mem
    ensures offs % SECTOR != 0 ==> !ok && dev.mem[..] == old(dev.mem[..])
    ensures var n := Sectors(size) * SECTOR;
      && (ok ==> Wrote(old(dev.mem[..]), dev.mem[..], offs, Const(0xff, n), n))
      && (!ok ==> Began(old(dev.mem[..]), dev.mem[..], offs, Const(0xff, n)))
      && (old(dev.faults) == [] && room && offs % SECTOR == 0 && offs + n <= dev.mem.Length ==> ok)
    ensures old(dev.faults) == [] ==> dev.faults == []
  {
    hide Splice, Const;
    var count := Sectors(size);
    ghost var mem, all := dev.mem[..], Const(0xff, count * SECTOR);
    assert Wrote(mem, mem, offs, all, 0);
    if offs % SECTOR != 0 || !room { return false; }
    for i := 0 to count
      invariant Wrote(mem, dev.mem[..], offs, all, i * SECTOR) && (old(dev.faults) == [] ==> dev.faults == [])
    {
      ConstSlice(0xff, count * SECTOR, i * SECTOR, (i + 1) * SECTOR);
      ghost var before := dev.mem[..];
      var w := dev.Write(offs + i * SECTOR, Const(0xff, SECTOR));
      if !w { return false; }
      WroteNext(mem, before, offs, all, i * SECTOR, (i + 1) * SECTOR);
    }
    return true;
  }

  // ----- checking for erased flash -----

  datatype Cleanness = Failed | Dirty | Clean

  /**
    How many bytes at the end are not looked at: a last chunk of one to three
    bytes has no whole word, and then its bytes are skipped as well.
  */
  function Skipped(size: nat, chunk: nat): (n: nat)
    requires 0 < chunk
    ensures n <= size
  {
    var last := LastChunk(size, chunk);
    if last <= 3 then last else 0
  }

  /** The length of the last of the chunks that make up `size` bytes. */
  function LastChunk(size: nat, chunk: nat): (n: nat)
    requires 0 < chunk
    ensures n <= size && n <= chunk && (0 < size ==> 0 < n)
  {
    if size <= chunk then size else LastChunk(size - chunk, chunk)
  }

  predicate Erased(mem: seq<byte>, offs: nat, n: nat) { offs + n <= |mem| && AllFf(mem[offs..offs + n]) }

  /** What a check that does not fail answers. */
  function Answer(mem: seq<byte>, offs: nat, size: nat, skipped: nat): Cleanness
    requires skipped <= size
  {
    if Erased(mem, offs, size - skipped) then Clean else Dirty
  }

  /** The answer is right on every content, exactly if no byte is skipped. */
  lemma CleanIsExact(size: nat, chunk: nat)
    requires 0 < chunk
    ensures (forall mem: seq<byte>, offs: nat :: offs + size <= |mem| ==>
        (Answer(mem, offs, size, Skipped(size, chunk)) == Clean <==> Erased(mem, offs, size)))
      <==> Skipped(size, chunk) == 0
  {
    var n := Skipped(size, chunk);
    if n != 0 {
      var s := Const(0xff, size - n) + Const(0, n);
      assert s[0..size - n] == Const(0xff, size - n);
      assert s[0..size][size - n] == 0;
      assert Answer(s, 0, size, n) == Clean && !Erased(s, 0, size);
    }
  }

  lemma ModFour(x: nat, q: nat)
    ensures (x + 4 * q) % 4 == x % 4
  {
  }

  lemma {:induction false} LastChunkWords(size: nat, chunk: nat)
    requires 0 < chunk && chunk % 4 == 0
    ensures LastChunk(size, chunk) % 4 == size % 4
    decreases size
  {
    if size > chunk {
      LastChunkWords(size - chunk, chunk);
      ModFour(size - chunk, chunk / 4);
    }
  }

  /** For whole words in whole-word chunks no byte is skipped. */
  lemma WordsNotSkipped(size: nat, chunk: nat)
    requires 0 < chunk && chunk % 4 == 0 && size % 4 == 0
    ensures Skipped(size, chunk) == 0
  {
    hide LastChunk;
    LastChunkWords(size, chunk);
  }

  /** One chunk: all whole words are ones. */
  method WordsClean(buf: seq<byte>) returns (clean: bool)
    ensures clean <==> AllFf(buf[..|buf| / 4 * 4])
  {
    for i := 0 to |buf| / 4
      invariant AllFf(buf[..i * 4])
    {
      if buf[4 * i] != 0xff || buf[4 * i + 1] != 0xff || buf[4 * i + 2] != 0xff || buf[4 * i + 3] != 0xff {
        ghost var k := if buf[4 * i] != 0xff then 4 * i else if buf[4 * i + 1] != 0xff then 4 * i + 1
                       else if buf[4 * i + 2] != 0xff then 4 * i + 2 else 4 * i + 3;
        assert buf[..|buf| / 4 * 4][k] != 0xff;
        return false;
      }
    }
    return true;
  }

  /** The bytes behind the last whole word, looked at only if there is a word. */
  method TailClean(buf: seq<byte>) returns (clean: bool)
    ensures clean <==> |buf| < 4 || AllFf(buf[|buf| / 4 * 4..])
  {
    var words := |buf| / 4;
    if words == 0 { return true; }
    for i := 0 to |buf| % 4
      invariant AllFf(buf[words * 4..words * 4 + i])
    {
      if buf[words * 4 + i] != 0xff {
        assert buf[words * 4..][i] != 0xff;
        return false;
      }
      assert buf[words * 4..words * 4 + i + 1] == buf[words * 4..words * 4 + i] + [buf[words * 4 + i]];
    }
    assert buf[words * 4..words * 4 + |buf| % 4] == buf[words * 4..];
    return true;
  }

  lemma AllFfParts(s: seq<byte>, i: nat)
    requires i <= |s|
    ensures AllFf(s) <==> AllFf(s[..i]) && AllFf(s[i..])
  {
    if AllFf(s[..i]) && AllFf(s[i..]) {
      forall k | 0 <= k < |s| ensures s[k] == 0xff {
        if k < i { assert s[..i][k] == 0xff; } else { assert s[i..][k - i] == 0xff; }
      }
    }
  }

  /** The SD reader can read `n` bytes at `offs`. */
  predicate SdReadable(offs: nat, n: nat, room: bool) { offs % SECTOR == 0 && (room || n % SECTOR == 0) }

  method ReadChunk(dev: Flash, sd: bool, offs: nat, n: nat, room: bool) returns (ok: bool, data: seq<byte>)
    requires 0 < n
    modifies dev`faults
    ensures ok ==> offs + n <= dev.mem.Length && data == dev.mem[..][offs..offs + n]
    ensures ok && sd ==> SdReadable(offs, n, room)
    ensures old(dev.faults) == [] ==> dev.faults == []
    ensures old(dev.faults) == [] && !sd && offs + n <= dev.mem.Length ==> ok
    ensures old(dev.faults) == [] && sd && SdReadable(offs, n, room) && offs + Sectors(n) * SECTOR <= dev.mem.Length
      ==> ok
  {
    hide Sectors;
    if sd { ok, data := ReadSd(dev, offs, n, room); } else { ok, data := dev.Read(offs, n); }
    assert ok ==> dev.mem[offs..offs + n] == dev.mem[..][offs..offs + n];
  }

  /** Everything up to `done` has been looked at, except an odd end of the last chunk. */
  ghost predicate Looked(mem: seq<byte>, offs: nat, done: nat, last: nat) {
    last <= done && (0 < done ==> offs + done <= |mem| && AllFf(mem[offs..offs + done - last % 4]))
  }

  lemma LookedNext(mem: seq<byte>, offs: nat, done: nat, last: nat, n: nat)
    requires Looked(mem, offs, done, last) && last % 4 == 0 && offs + done + n <= |mem| && 0 < n
    requires AllFf(mem[offs + done..offs + done + n][..n / 4 * 4])
    ensures Looked(mem, offs, done + n, n)
  {
    var s := mem[offs..offs + done + n - n % 4];
    assert s[..done] == mem[offs..offs + done];
    assert s[done..] == mem[offs + done..offs + done + n][..n / 4 * 4];
    AllFfParts(s, done);
  }

  lemma DirtyAt(mem: seq<byte>, offs: nat, size: nat, skipped: nat, lo: nat, hi: nat)
    requires skipped <= size && offs <= lo <= hi <= offs + size - skipped && hi <= |mem| && !AllFf(mem[lo..hi])
    ensures Answer(mem, offs, size, skipped) == Dirty
  {
    var k :| 0 <= k < hi - lo && mem[lo..hi][k] != 0xff;
    var n := size - skipped;
    if offs + n <= |mem| {
      var s, j := mem[offs..offs + n], lo + k - offs;
      assert s[j] == mem[offs + j] == mem[lo + k] == mem[lo..hi][k] != 0xff;
      assert !AllFf(s);
    }
  }

  /** The end: the tail of the last chunk completes the range, or is skipped. */
  lemma CleanAt(mem: seq<byte>, offs: nat, size: nat, skipped: nat, last: nat)
    requires 0 < last && Looked(mem, offs, size, last) && skipped == if last < 4 then last else 0
    requires last < 4 || AllFf(mem[offs + size - last..offs + size][last / 4 * 4..])
    ensures Answer(mem, offs, size, skipped) == Clean
  {
    if last >= 4 {
      var s, i := mem[offs..offs + size], size - last % 4;
      assert s[..i] == mem[offs..offs + size - last % 4];
      assert s[i..] == mem[offs + size - last..offs + size][last / 4 * 4..];
      AllFfParts(s, i);
    }
  }

  function ChunkSize(sd: bool, bufSize: nat): nat { if sd then bufSize else Min(bufSize, READ_SEG) }

  /** No read of the SD check fails on a device without faults: aligned, and never off a sector boundary in between. */
  predicate SdChecks(offs: nat, size: nat, chunk: nat, room: bool) {
    offs % SECTOR == 0 && (chunk % SECTOR == 0 || size <= chunk) && (room || size % SECTOR == 0)
  }

  /** The part of the device the check touches. */
  function Extent(sd: bool, size: nat): nat { if sd then Sectors(size) * SECTOR else size }

  /**
    ota_storage_is_clean and its SD twin.  With a zero-sized buffer the source
    never leaves its loop, and with nothing to read an odd SD buffer size leaves
    it without a buffer to look at; both are excluded.
  */
  method IsClean(dev: Flash, sd: bool, offs: nat, size: nat, bufSize: nat, aligned: bool, room: bool)
    returns (r: Cleanness)
    requires 0 < bufSize || size == 0 || sd
    requires size == 0 && sd ==> bufSize % 4 == 0
    modifies dev`faults
    ensures (if sd then bufSize == 0 else !aligned || bufSize % 4 != 0) ==> r == Failed
    ensures 0 < size && 0 < bufSize && r != Failed ==>
      r == Answer(dev.mem[..], offs, size, Skipped(size, ChunkSize(sd, bufSize)))
    ensures size == 0 && r != Failed ==> r == Clean
    ensures old(dev.faults) == [] && offs + Extent(sd, size) <= dev.mem.Length && 0 < size ==>
      && (!sd && aligned && bufSize % 4 == 0 ==> r != Failed)
      && (sd && 0 < bufSize && SdChecks(offs, size, bufSize, room) ==> r != Failed)
    ensures 0 < size && sd && r == Clean ==> SdChecks(offs, size, bufSize, room)
  {
    if !sd && (!aligned || bufSize % 4 != 0) { return Failed; }
    if sd && bufSize == 0 { return Failed; }
    if size == 0 { return Clean; }
    r := CheckRange(dev, sd, offs, size, ChunkSize(sd, bufSize), room);
  }

  /** The chunks up to `done` were clean, and `buf` is the last of them. */
  ghost predicate Progress(sd: bool, mem: seq<byte>, offs: nat, size: nat, chunk: nat, room: bool,
                           done: nat, buf: seq<byte>)
    requires 0 < chunk
  {
    && done <= size && Looked(mem, offs, done, |buf|)
    && (done < size ==> |buf| % 4 == 0 || (sd && (offs + done) % SECTOR != 0))
    && (if done < size then LastChunk(size - done, chunk) == LastChunk(size, chunk)
        else |buf| == LastChunk(size, chunk))
    && (0 < done ==> offs + done <= |mem| && |buf| <= done && buf == mem[offs + done - |buf|..offs + done])
    && (sd ==> SdSoFar(offs, size, chunk, room, done))
  }

  lemma ProgressStart(sd: bool, mem: seq<byte>, offs: nat, size: nat, chunk: nat, room: bool)
    requires 0 < size && 0 < chunk
    ensures Progress(sd, mem, offs, size, chunk, room, 0, [])
  {
  }

  lemma ProgressNext(sd: bool, mem: seq<byte>, offs: nat, size: nat, chunk: nat, room: bool,
                     done: nat, buf: seq<byte>, n: nat, part: seq<byte>)
    requires 0 < chunk && done < size && n == Min(chunk, size - done) && (sd || chunk % 4 == 0)
    requires Progress(sd, mem, offs, size, chunk, room, done, buf)
    requires offs + done + n <= |mem| && part == mem[offs + done..offs + done + n] && AllFf(part[..n / 4 * 4])
    requires sd ==> SdReadable(offs + done, n, room)
    ensures Progress(sd, mem, offs, size, chunk, room, done + n, part)
  {
    hide AllFf, LastChunk, Looked, SdSoFar;
    if sd {
      SdNext(offs, size, chunk, room, done, n);
      if n % 4 != 0 { OddChunk(offs + done, n); }
    }
    assert sd ==> (offs + done) % SECTOR == 0;
    LookedNext(mem, offs, done, |buf|, n);
    LastStep(size - done, chunk);
  }

  lemma SkippedBehind(size: nat, chunk: nat, done: nat, n: nat)
    requires 0 < chunk && done < size && n == Min(chunk, size - done)
    requires LastChunk(size - done, chunk) == LastChunk(size, chunk)
    ensures Skipped(size, chunk) <= size - done - n / 4 * 4
  {
    LastStep(size - done, chunk);
  }

  /** One chunk of the check. */
  method CheckChunk(dev: Flash, sd: bool, offs: nat, size: nat, chunk: nat, room: bool,
                    done: nat, ghost last: seq<byte>, n: nat)
    returns (r: Cleanness, buf: seq<byte>)
    requires 0 < chunk && done < size && n == Min(chunk, size - done) && (sd || chunk % 4 == 0)
    requires Progress(sd, dev.mem[..], offs, size, chunk, room, done, last)
    modifies dev`faults
    ensures r == Dirty ==> Answer(dev.mem[..], offs, size, Skipped(size, chunk)) == Dirty
    ensures r == Clean ==> Progress(sd, dev.mem[..], offs, size, chunk, room, done + n, buf)
    ensures old(dev.faults) == [] ==> dev.faults == []
    ensures old(dev.faults) == [] && offs + Extent(sd, size) <= dev.mem.Length ==>
      ((sd ==> SdChecks(offs, size, chunk, room)) ==> r != Failed)
  {
    SkippedBehind(size, chunk, done, n);
    if sd && SdChecks(offs, size, chunk, room) { SdReads(offs, size, chunk, room, done, n); }
    hide Looked, Answer, AllFf, Progress, SdReadable, SdSoFar, SdChecks, Skipped, Sectors;
    ghost var mem := dev.mem[..];
    var ok;
    ok, buf := ReadChunk(dev, sd, offs + done, n, room);
    if !ok { return Failed, []; }
    var clean := WordsClean(buf);
    if clean {
      ProgressNext(sd, mem, offs, size, chunk, room, done, last, n, buf);
      return Clean, buf;
    }
    DirtyChunk(mem, offs, size, Skipped(size, chunk), done, n);
    return Dirty, buf;
  }

  lemma DirtyChunk(mem: seq<byte>, offs: nat, size: nat, skipped: nat, done: nat, n: nat)
    requires done + n <= size && offs + done + n <= |mem| && skipped <= size - done - n / 4 * 4
    requires !AllFf(mem[offs + done..offs + done + n][..n / 4 * 4])
    ensures Answer(mem, offs, size, skipped) == Dirty
  {
    assert mem[offs + done..offs + done + n][..n / 4 * 4] == mem[offs + done..offs + done + n / 4 * 4];
    DirtyAt(mem, offs, size, skipped, offs + done, offs + done + n / 4 * 4);
  }

  /** The loop of both checks, in chunks of `chunk` bytes. */
  method CheckRange(dev: Flash, sd: bool, offs: nat, size: nat, chunk: nat, room: bool) returns (r: Cleanness)
    requires 0 < size && 0 < chunk && (sd || chunk % 4 == 0)
    modifies dev`faults
    ensures r != Failed ==> r == Answer(dev.mem[..], offs, size, Skipped(size, chunk))
    ensures old(dev.faults) == [] && offs + Extent(sd, size) <= dev.mem.Length ==>
      ((sd ==> SdChecks(offs, size, chunk, room)) ==> r != Failed)
    ensures sd && r == Clean ==> SdChecks(offs, size, chunk, room)
  {
    ghost var mem := dev.mem[..];
    var done, n, buf := 0, chunk, [];
    ProgressStart(sd, mem, offs, size, chunk, room);
    SdEnds(offs, size, chunk, room);
    while done < size
      invariant done <= size && dev.mem[..] == mem && (done < size ==> n == chunk)
      invariant old(dev.faults) == [] ==> dev.faults == []
      invariant Progress(sd, mem, offs, size, chunk, room, done, buf)
    {
      hide *;
      if size - done < n { n := size - done; }
      assert n == Min(chunk, size - done) by { MinIs(chunk, size - done); }
      var v, part := CheckChunk(dev, sd, offs, size, chunk, room, done, buf, n);
      if v == Dirty { return Dirty; }
      if v == Failed { return Failed; }
      buf, done := part, done + n;
    }
    r := CheckTail(dev, offs, size, Skipped(size, chunk), buf);
  }

  lemma MinIs(a: nat, b: nat)
    ensures Min(a, b) == if b < a then b else a
  {
  }

  /** What the reads up to `done` tell. */
  predicate SdSoFar(offs: nat, size: nat, chunk: nat, room: bool, done: nat) {
    0 < done ==>
      && offs % SECTOR == 0 && (chunk < done ==> chunk % SECTOR == 0)
      && (done < size ==> chunk <= done && (chunk % SECTOR == 0 ==> done % SECTOR == 0))
      && (done == size ==> room || size % SECTOR == 0)
  }

  lemma SdEnds(offs: nat, size: nat, chunk: nat, room: bool)
    requires 0 < size
    ensures SdSoFar(offs, size, chunk, room, 0)
    ensures SdSoFar(offs, size, chunk, room, size) ==> SdChecks(offs, size, chunk, room)
  {
  }

  lemma SectorsBehind(a: nat, b: nat)
    requires a % SECTOR == 0
    ensures Sectors(a + b) * SECTOR == a + Sectors(b) * SECTOR && (a + b) % SECTOR == b % SECTOR
  {
    var q := a / SECTOR;
    assert a == q * SECTOR;
  }

  lemma SectorsGrow(a: nat, b: nat)
    requires a <= b
    ensures Sectors(a) <= Sectors(b)
  {
  }

  /** If the whole check is to succeed, so is the read at `done`. */
  lemma SdReads(offs: nat, size: nat, chunk: nat, room: bool, done: nat, n: nat)
    requires done < size && 0 < chunk && n == Min(chunk, size - done) && SdSoFar(offs, size, chunk, room, done)
    requires SdChecks(offs, size, chunk, room)
    ensures SdReadable(offs + done, n, room) && done + Sectors(n) * SECTOR <= Sectors(size) * SECTOR
  {
    if done == 0 {
      SectorsGrow(n, size);
    } else {
      SectorsBehind(done, size - done);
      SectorsGrow(n, size - done);
      SectorsBehind(offs, done);
    }
  }

  /** The read at `done` tells that the check so far was on sector boundaries. */
  lemma SdNext(offs: nat, size: nat, chunk: nat, room: bool, done: nat, n: nat)
    requires done < size && 0 < chunk && n == Min(chunk, size - done) && SdSoFar(offs, size, chunk, room, done)
    requires SdReadable(offs + done, n, room)
    ensures SdSoFar(offs, size, chunk, room, done + n) && (offs + done) % SECTOR == 0
  {
    if done > 0 {
      SectorsBehind(offs, done);
      SectorsBehind(done, n);
    }
  }

  /** The odd bytes at the end of the last chunk. */
  method CheckTail(dev: Flash, offs: nat, size: nat, ghost skipped: nat, buf: seq<byte>) returns (r: Cleanness)
    requires 0 < |buf| <= size && offs + size <= dev.mem.Length && Looked(dev.mem[..], offs, size, |buf|)
    requires buf == dev.mem[..][offs + size - |buf|..offs + size]
    requires skipped == if |buf| < 4 then |buf| else 0
    ensures r == Answer(dev.mem[..], offs, size, skipped)
  {
    hide Looked, Answer, AllFf;
    ghost var mem := dev.mem[..];
    var clean := TailClean(buf);
    if !clean {
      assert buf[|buf| / 4 * 4..] == mem[offs + size - |buf| % 4..offs + size];
      DirtyAt(mem, offs, size, skipped, offs + size - |buf| % 4, offs + size);
      return Dirty;
    }
    CleanAt(mem, offs, size, skipped, |buf|);
    return Clean;
  }

  lemma LastStep(size: nat, chunk: nat)
    requires 0 < size && 0 < chunk
    ensures LastChunk(size, chunk) == if size <= chunk then size else LastChunk(size - chunk, chunk)
    ensures chunk < size ==> LastChunk(size, chunk) <= size - chunk
  {
  }

  /** After a chunk that is not whole words the next SD read is not sector-aligned and fails. */
  lemma OddChunk(at: nat, n: nat)
    requires at % SECTOR == 0 && n % 4 != 0
    ensures (at + n) % SECTOR != 0
  {
  }

  /** After a write of ones the answer for the range, or for a part of it, is Clean. */
  lemma ErasedIsClean(mem: seq<byte>, mem': seq<byte>, off: nat, n: nat, size: nat, skipped: nat)
    requires Wrote(mem, mem', off, Const(0xff, n), n) && skipped <= size <= n && 0 < size
    ensures Answer(mem', off, size, skipped) == Clean
  {
    WriteThenRead(mem, mem', off, Const(0xff, n));
    var s := mem'[off..off + size - skipped];
    forall k | 0 <= k < |s| ensures s[k] == 0xff {
      assert s[k] == mem'[off..off + n][k];
    }
  }

  /**
    Erase, then check, on either kind of device: whenever both get through the
    answer is Clean, and without faults they do get through, on SD exactly if
    the check reads on sector boundaries.
  */
  method EraseThenClean(dev: Flash, sd: bool, offs: nat, size: nat, bufSize: nat, room: bool)
    returns (ok: bool, r: Cleanness)
    requires 0 < size && 0 < bufSize && (sd || bufSize % 4 == 0)
    modifies dev`faults, dev.mem
    ensures ok && r != Failed ==> r == Clean
    ensures old(dev.faults) == [] && offs + Extent(sd, size) <= dev.mem.Length ==>
      && (!sd ==> ok && r == Clean)
      && (sd && room && offs % SECTOR == 0 ==> ok && (r == Clean <==> bufSize % SECTOR == 0 || size <= bufSize))
  {
    ghost var mem := dev.mem[..];
    if sd { ok := EraseSd(dev, offs, size, room); } else { ok := EraseNor(dev, offs, size); }
    if !ok { return false, Failed; }
    ErasedIsClean(mem, dev.mem[..], offs, Extent(sd, size), size, Skipped(size, ChunkSize(sd, bufSize)));
    r := IsClean(dev, sd, offs, size, bufSize, true, room);
  }
}
