/** The bytes behind the scene store: bk_info, bk_off and the flag, as the scan loops read and write them. */
module EsdManager {
  import opened Basics
  import opened E = EsdStore

  const BK_FLAG := 0x12345678

  /** Tag and length. */
  function Front(tag: byte, n: nat): (b: seq<byte>)
    ensures |b| == 2
  {
    [tag, n % 256]
  }

  function Pack(e: Entry): (b: seq<byte>)
    ensures |b| == Width(e)
  {
    Front(e.tag, |e.value|) + e.value
  }

  ghost predicate Short(es: seq<Entry>) { forall e :: e in es ==> |e.value| < 256 }

  function Flat(es: seq<Entry>): (b: seq<byte>)
    ensures |b| == Size(es)
  {
    if es == [] then [] else Pack(es[0]) + Flat(es[1..])
  }

  /** The scan loop on bytes: the offset it stops at with a hit. */
  function ScanBytes(b: seq<byte>, i: nat, saving: bool, tag: int, n: nat): Option<nat>
    requires |b| >= SIZE
    decreases SIZE - i
  {
    if i >= SIZE - 2 then None
    else if b[i] == tag && Suits(saving, b[i + 1], n) then Some(i)
    else if b[i] == FINISHED then None
    else ScanBytes(b, i + b[i + 1] + 2, saving, tag, n)
  }

  /** What lies behind the entries: the end mark and zeros, or only zeros if nothing was ever saved. */
  ghost predicate Tail(b: seq<byte>, end: nat, used: bool)
    requires |b| > SIZE >= end
  {
    && (used ==> b[end] == FINISHED)
    && (forall i :: end + (if used then 1 else 0) <= i < SIZE ==> b[i] == 0)
  }

  lemma {:induction false} ScanZeros(b: seq<byte>, i: nat, saving: bool, tag: int, n: nat)
    requires |b| > SIZE && forall j :: i <= j < SIZE ==> b[j] == 0
    ensures ScanBytes(b, i, saving, tag, n) == if i < SIZE - 2 && tag == 0 && Suits(saving, 0, n) then Some(i) else None
    decreases SIZE - i
  {
    if i < SIZE - 2 && !(tag == 0 && Suits(saving, 0, n)) {
      ScanZeros(b, i + 2, saving, tag, n);
    }
  }

  /** Where a scan over `es` from byte `i` stops: at an entry, at the blank behind them, or not at all. */
  ghost function Stop(es: seq<Entry>, i: nat, used: bool, saving: bool, tag: int, n: nat): Option<nat> {
    var f, end := Find(es, i, saving, tag, n), i + Size(es);
    if f.Some? then Some(i + Size(es[..f.value]))
    else if end < SIZE - 2 && tag == (if used then FINISHED else 0) && Suits(saving, 0, n) && Open(es) then Some(end)
    else None
  }

  lemma StopStep(es: seq<Entry>, i: nat, used: bool, saving: bool, tag: int, n: nat)
    requires es != []
    ensures Stop(es, i, used, saving, tag, n) ==
      if i >= SIZE - 2 then None
      else if es[0].tag == tag && Suits(saving, |es[0].value|, n) then Some(i)
      else if es[0].tag == FINISHED then None
      else Stop(es[1..], i + Width(es[0]), used, saving, tag, n)
  {
    hide Open;
    OpenFirst(es);
    var f := Find(es, i, saving, tag, n);
    if f.Some? && f.value > 0 {
      assert es[..f.value][1..] == es[1..][..f.value - 1];
    }
  }

  lemma ScanStep(b: seq<byte>, i: nat, saving: bool, tag: int, n: nat)
    requires |b| > SIZE && i + 1 < |b|
    ensures ScanBytes(b, i, saving, tag, n) ==
      if i >= SIZE - 2 then None
      else if b[i] == tag && Suits(saving, b[i + 1], n) then Some(i)
      else if b[i] == FINISHED then None
      else ScanBytes(b, i + 2 + b[i + 1], saving, tag, n)
  {
  }

  lemma ScanEnd(b: seq<byte>, i: nat, used: bool, saving: bool, tag: int, n: nat)
    requires |b| > SIZE >= i && Tail(b, i, used)
    ensures ScanBytes(b, i, saving, tag, n) == Stop([], i, used, saving, tag, n)
  {
    if !used { ScanZeros(b, i, saving, tag, n); }
  }

  /** On well-formed bytes the scan stops where the list search stops. */
  lemma {:induction false} ScanIsFind(b: seq<byte>, i: nat, es: seq<Entry>, used: bool, saving: bool, tag: int, n: nat)
    requires |b| > SIZE && Short(es) && i + Size(es) <= SIZE && b[i..i + Size(es)] == Flat(es)
    requires Tail(b, i + Size(es), used) && (es != [] ==> used)
    ensures ScanBytes(b, i, saving, tag, n) == Stop(es, i, used, saving, tag, n)
    decreases |es|
  {
    hide ScanBytes, Stop, Flat, Tail;
    if es == [] {
      ScanEnd(b, i, used, saving, tag, n);
    } else {
      assert Size(es) == Width(es[0]) + Size(es[1..]) && Short(es[1..]);
      hide Size, Short;
      FrontEntry(b, i, es);
      ScanStep(b, i, saving, tag, n);
      StopStep(es, i, used, saving, tag, n);
      ScanIsFind(b, i + Width(es[0]), es[1..], used, saving, tag, n);
    }
  }

  lemma OpenFirst(es: seq<Entry>)
    requires es != []
    ensures Open(es) <==> es[0].tag != FINISHED && Open(es[1..])
  {
  }

  lemma FrontEntry(b: seq<byte>, i: nat, es: seq<Entry>)
    requires es != [] && Short(es) && i + Size(es) <= |b| && b[i..i + Size(es)] == Flat(es)
    ensures b[i] == es[0].tag && b[i + 1] == |es[0].value|
    ensures var j := i + Width(es[0]); b[j..j + Size(es[1..])] == Flat(es[1..])
  {
    var p, f := Pack(es[0]), Flat(es);
    assert b[i] == f[0] == p[0] && b[i + 1] == f[1] == p[1];
    var j := i + Width(es[0]);
    assert b[j..j + Size(es[1..])] == f[Width(es[0])..];
  }

  lemma {:induction false} FlatAppend(es: seq<Entry>, e: Entry)
    ensures Flat(es + [e]) == Flat(es) + Pack(e)
  {
    if es == [] {
      assert [e][1..] == [];
    } else {
      assert (es + [e])[1..] == es[1..] + [e];
      FlatAppend(es[1..], e);
    }
  }

  lemma {:induction false} FlatParts(es: seq<Entry>, k: nat)
    requires k < |es|
    ensures Flat(es) == Flat(es[..k]) + Pack(es[k]) + Flat(es[k + 1..])
  {
    hide Pack;
    if k == 0 {
      assert es[..0] == [];
    } else {
      FlatParts(es[1..], k - 1);
      assert es[..k][1..] == es[1..][..k - 1] && es[1..][k..] == es[k + 1..];
    }
  }

  lemma Parts(b: seq<byte>, x: seq<byte>, y: seq<byte>, v: seq<byte>, z: seq<byte>)
    requires b == x + (y + v) + z && |y| == 2
    ensures var i, j := |x|, |x| + 2 + |v|;
      b[i + 1] == y[1] && b[i + 2..j] == v && b[..i + 2] == x + y && b[j..] == z
  {
  }

  lemma Regroup(x: seq<byte>, y: seq<byte>, v: seq<byte>, z: seq<byte>)
    ensures x + (y + v) + z == x + y + v + z
  {
  }

  /** Entry `k` in the packed bytes. */
  lemma FlatEntry(es: seq<Entry>, k: nat)
    requires k < |es|
    ensures var i, e, b := Size(es[..k]), es[k], Flat(es);
      && i + Width(e) <= |b| && b[i + 1] == Front(e.tag, |e.value|)[1] && b[i + 2..i + Width(e)] == e.value
      && b[..i + 2] == Flat(es[..k]) + Front(e.tag, |e.value|) && b[i + Width(e)..] == Flat(es[k + 1..])
  {
    var e := es[k];
    hide Flat, Size, Front;
    FlatParts(es, k);
    Parts(Flat(es), Flat(es[..k]), Front(e.tag, |e.value|), e.value, Flat(es[k + 1..]));
  }

  /** What rewriting its value does to them. */
  lemma FlatRewrite(es: seq<Entry>, k: nat, v: seq<byte>)
    requires k < |es| && |v| == |es[k].value|
    ensures var i, e, b := Size(es[..k]), es[k], Flat(es);
      && i + Width(e) <= |b|
      && Flat(es[k := e.(value := v)]) == b[..i + 2] + v + b[i + Width(e)..]
  {
    var es', e := es[k := es[k].(value := v)], es[k];
    hide Flat, Size, Front;
    FlatEntry(es, k);
    FlatParts(es', k);
    assert es'[..k] == es[..k] && es'[k + 1..] == es[k + 1..];
    Regroup(Flat(es[..k]), Front(e.tag, |v|), v, Flat(es[k + 1..]));
  }

  lemma EntryWithin(es: seq<Entry>, k: nat)
    requires k < |es|
    ensures Size(es[..k]) + Width(es[k]) <= Size(es)
  {
    SizeSplit(es, k);
  }

  lemma {:induction false} SizeSplit(es: seq<Entry>, k: nat)
    requires k < |es|
    ensures Size(es) == Size(es[..k]) + Width(es[k]) + Size(es[k + 1..])
  {
    if k != 0 {
      SizeSplit(es[1..], k - 1);
      assert es[..k][1..] == es[1..][..k - 1] && es[1..][k..] == es[k + 1..];
    }
  }

  lemma EntryBytes(b: seq<byte>, es: seq<Entry>, k: nat)
    requires Short(es) && k < |es| && Size(es) <= |b| && b[..Size(es)] == Flat(es)
    ensures var i, e := Size(es[..k]), es[k];
      i + Width(e) <= |b| && b[i + 1] == |e.value| && b[i + 2..i + Width(e)] == e.value
  {
    hide Flat, Size;
    FlatEntry(es, k);
    assert es[k] in es;
    var i, e, f := Size(es[..k]), es[k], Flat(es);
    PrefixSlice(b, f, i + 2, i + Width(e));
    assert b[i + 1] == b[..|f|][i + 1];
  }

  lemma PrefixSlice(b: seq<byte>, f: seq<byte>, i: nat, j: nat)
    requires i <= j <= |f| <= |b| && b[..|f|] == f
    ensures b[i..j] == f[i..j]
  {
    forall k | 0 <= k < j - i ensures b[i..j][k] == f[i..j][k] {
      assert b[i + k] == b[..|f|][i + k];
    }
  }

  lemma PatchIn(b: seq<byte>, b': seq<byte>, f: seq<byte>, at: nat, m: nat, v: seq<byte>)
    requires |f| <= |b| && b[..|f|] == f && at + m <= |f| && |v| <= m && b' == b[..at] + v + b[at + |v|..]
    ensures b'[..|f|] == f[..at] + (v + f[at..at + m][|v|..]) + f[at + m..] && b'[|f|..] == b[|f|..]
  {
    assert f[..at] == b[..at] && f[at..at + m][|v|..] == b[at + |v|..at + m] && f[at + m..] == b[at + m..|f|];
  }

  lemma ShortRewrite(es: seq<Entry>, k: nat, v: seq<byte>)
    requires Short(es) && k < |es| && |v| == |es[k].value|
    ensures Short(es[k := es[k].(value := v)])
  {
    var es' := es[k := es[k].(value := v)];
    assert es[k] in es;
    forall x | x in es' ensures |x.value| < 256 {
      var j :| 0 <= j < |es'| && es'[j] == x;
      assert es[j] in es;
    }
  }

  lemma TailKept(b: seq<byte>, b': seq<byte>, end: nat)
    requires |b| == |b'| > SIZE >= end && b'[end..] == b[end..] && Tail(b, end, true)
    ensures Tail(b', end, true)
  {
    forall j | end <= j < |b| ensures b'[j] == b[j] {
      assert b'[end..][j - end] == b[end..][j - end];
    }
  }

  /** Copying a value of at most the stored length over entry `k` rewrites just that entry. */
  lemma RewriteBytes(b: seq<byte>, b': seq<byte>, es: seq<Entry>, k: nat, v: seq<byte>)
    requires |b| > SIZE && Short(es) && k < |es| && Size(es) <= SIZE
    requires b[..Size(es)] == Flat(es) && Tail(b, Size(es), true) && |v| <= |es[k].value|
    requires var i := Size(es[..k]); i + 2 + |v| <= |b| && b' == b[..i + 2] + v + b[i + 2 + |v|..]
    ensures var es' := es[k := es[k].(value := v + es[k].value[|v|..])];
      Short(es') && Size(es') == Size(es) && b'[..Size(es)] == Flat(es') && Tail(b', Size(es), true)
  {
    var e, i, w := es[k], Size(es[..k]), v + es[k].value[|v|..];
    var es' := es[k := e.(value := w)];
    hide Flat, Short, Size, Tail;
    ShortRewrite(es, k, w);
    SizeRewrite(es, k, w);
    RewrittenFlat(es, k, v);
    PatchIn(b, b', Flat(es), i + 2, |e.value|, v);
    TailKept(b, b', Size(es));
  }

  lemma RewrittenFlat(es: seq<Entry>, k: nat, v: seq<byte>)
    requires k < |es| && |v| <= |es[k].value|
    ensures var i, e, f := Size(es[..k]), es[k], Flat(es);
      var j := i + 2 + |e.value|;
      && j <= |f|
      && Flat(es[k := e.(value := v + e.value[|v|..])]) == f[..i + 2] + (v + f[i + 2..j][|v|..]) + f[j..]
  {
    hide Flat, Size, Front;
    FlatEntry(es, k);
    FlatRewrite(es, k, v + es[k].value[|v|..]);
  }

  /** Writing an entry and a new end mark behind the old ones appends it. */
  lemma AppendBytes(b: seq<byte>, b': seq<byte>, es: seq<Entry>, e: Entry)
    requires |b| > SIZE && Short(es) && Size(es) + Width(e) <= SIZE
    requires b[..Size(es)] == Flat(es) && Tail(b, Size(es), es != [])
    requires b' == b[..Size(es)] + Pack(e) + [FINISHED] + b[Size(es) + Width(e) + 1..]
    ensures var es' := es + [e]; var n := Size(es) + Width(e);
      Short(es') && Size(es') == n && b'[..n] == Flat(es') && Tail(b', n, true)
  {
    FlatAppend(es, e);
    SizeAppend(es, e);
  }

  class Manager {
    /** bk_info and the one byte behind it, which the end mark of an exactly full store overwrites. */
    const info: array<byte>
    var flag: nat
    var resetFlag: bool
    var off: nat
    ghost var es: seq<Entry>

    ghost predicate Valid()
      reads this, info
    {
      && info.Length == SIZE + 1 && off <= SIZE && off == Size(es) && Short(es)
      && info[..off] == Flat(es) && Tail(info[..], off, es != [])
      && (es != [] ==> flag == BK_FLAG)
    }

    /** Power-up without a stored scene: the flag does not match, so everything is cleared. */
    constructor ()
      ensures Valid() && es == [] && fresh(info)
    {
      info := new byte[SIZE + 1](_ => 0);
      flag, resetFlag, off, es := 0, false, 0, [];
    }

    /** esd_manager_init after a reset: with the flag in place the store is kept. */
    method Init()
      requires Valid()
      modifies this, info
      ensures Valid() && resetFlag == (old(flag) == BK_FLAG)
      ensures old(flag) == BK_FLAG ==> es == old(es)
      ensures old(flag) != BK_FLAG ==> es == []
    {
      if flag == BK_FLAG {
        resetFlag := true;
      } else {
        resetFlag, off, flag, es := false, 0, 0, [];
        for i := 0 to SIZE
          invariant forall j :: 0 <= j < i ==> info[j] == 0
          modifies info
        {
          info[i] := 0;
        }
      }
    }

    /** The scan both operations share. */
    method Scan(saving: bool, tag: int, n: nat) returns (r: Option<nat>)
      requires info.Length > SIZE
      ensures r == ScanBytes(info[..], 0, saving, tag, n)
    {
      var i := 0;
      while i < SIZE - 2
        invariant 0 <= i && ScanBytes(info[..], i, saving, tag, n) == ScanBytes(info[..], 0, saving, tag, n)
        decreases SIZE - i
      {
        var tmpTag, tmpLen := info[i], info[i + 1];
        if tmpTag == tag && Suits(saving, tmpLen, n) { return Some(i); }
        if tmpTag == FINISHED { return None; }
        i := i + tmpLen + 2;
      }
      return None;
    }

    static method CopyIn(a: array<byte>, at: nat, v: seq<byte>)
      requires at + |v| <= a.Length
      modifies a
      ensures a[..] == old(a[..at]) + v + old(a[at + |v|..])
    {
      for i := 0 to |v|
        invariant forall k :: 0 <= k < a.Length ==> a[k] == if at <= k < at + i then v[k - at] else old(a[k])
      {
        a[at + i] := v[i];
      }
    }

    /** The hit branch of a save: copy over the value found. */
    method Overwrite(at: nat, tag: int, v: seq<byte>)
      requires Valid() && HasRoom(es, |v|) && Some(at) == Stop(es, 0, es != [], true, tag, |v|)
      modifies this, info
      ensures Valid() && (es, true) == Save(old(es), tag, v) && |es| == |old(es)|
    {
      hide Flat, Find, Open;
      ghost var b, f := info[..], Find(es, 0, true, tag, |v|);
      if f.Some? { EntryWithin(es, f.value); }
      CopyIn(info, at + 2, v);
      if f.Some? {
        RewriteBytes(b, info[..], es, f.value, v);
        es := es[f.value := es[f.value].(value := v + es[f.value].value[|v|..])];
      } else {
        assert info[..] == b;
      }
    }

    /** The other branch: the entry and a new end mark go behind the old ones. */
    method Append(tag: int, v: seq<byte>)
      requires Valid() && HasRoom(es, |v|)
      modifies this, info
      ensures Valid() && es == old(es) + [Entry(tag % 256, v)] && off == old(off) + |v| + 2
    {
      hide Flat;
      ghost var b, e := info[..], Entry(tag % 256, v);
      CopyIn(info, off, [tag % 256, |v|] + v + [FINISHED]);
      assert Pack(e) == [tag % 256, |v|] + v;
      AppendBytes(b, info[..], es, e);
      es := es + [e];
      off, flag := off + |v| + 2, BK_FLAG;
    }

    /**
      esd_manager_save_scene.  `spilled` tells whether the end mark went one byte
      past bk_info, which happens exactly when an appended entry fills it up.
    */
    method SaveScene(tag: int, v: seq<byte>) returns (ok: bool, spilled: bool)
      requires Valid()
      modifies this, info
      ensures Valid() && (es, ok) == Save(old(es), tag, v)
      ensures spilled <==> |es| > |old(es)| && old(off) + |v| + 2 == SIZE
    {
      hide Flat, Find, Open;
      if off + |v| + 2 > SIZE { return false, false; }
      ScanIsFind(info[..], 0, es, es != [], true, tag, |v|);
      var hit := Scan(true, tag, |v|);
      if hit.Some? {
        Overwrite(hit.value, tag, v);
        return true, false;
      }
      Append(tag, v);
      return true, off == SIZE;
    }

    /** esd_manager_restore_scene into a buffer of `n` bytes. */
    method RestoreScene(tag: int, n: nat) returns (r: Option<seq<byte>>)
      requires Valid()
      ensures r == Restore(es, tag, n)
    {
      hide Flat, Find, Open;
      ghost var b := info[..];
      ScanIsFind(b, 0, es, es != [], false, tag, n);
      var hit := Scan(false, tag, n);
      if hit.None? { return None; }
      var at := hit.value;
      ghost var f := Find(es, 0, false, tag, n);
      if f.Some? { EntryBytes(b, es, f.value); } else { assert b[at + 1] == 0; }
      var data := info[at + 2..at + 2 + info[at + 1]];
      assert data == b[at + 2..at + 2 + b[at + 1]];
      return Some(data);
    }
  }
}
