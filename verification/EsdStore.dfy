/**
  The scene store that survives an electrostatic reset: tagged values packed
  into a small byte buffer.  First the store as a list of entries, exactly as
  the two scan loops see it, with the laws it obeys; the class below shows that
  the bytes implement the list.
*/
module EsdStore {
  import opened Basics

  const SIZE := 250
  const FINISHED: byte := 0xAA

  datatype Entry = Entry(tag: byte, value: seq<byte>)

  function Width(e: Entry): nat { 2 + |e.value| }

  function Size(es: seq<Entry>): nat {
    if es == [] then 0 else Width(es[0]) + Size(es[1..])
  }

  /** Saving looks for room in an old entry, restoring for an entry that fits the caller's buffer. */
  predicate Suits(saving: bool, stored: nat, asked: nat) {
    if saving then asked <= stored else stored <= asked
  }

  /** Where a scan starting at byte `at` stops with a hit; an entry tagged like the end mark ends it. */
  function Find(es: seq<Entry>, at: nat, saving: bool, tag: int, n: nat): (r: Option<nat>)
    ensures r.Some? ==> r.value < |es| && es[r.value].tag == tag && Suits(saving, |es[r.value].value|, n)
  {
    if es == [] || at >= SIZE - 2 then None
    else if es[0].tag == tag && Suits(saving, |es[0].value|, n) then Some(0)
    else if es[0].tag == FINISHED then None
    else
      var r := Find(es[1..], at + Width(es[0]), saving, tag, n);
      if r.Some? then Some(r.value + 1) else None
  }

  /**
    Past the last entry the scan meets the end mark, or in a store that was never
    used only zero bytes: both read as an entry without a value.
  */
  predicate MeetsBlank(es: seq<Entry>, saving: bool, tag: int, n: nat) {
    Size(es) < SIZE - 2 && tag == (if es == [] then 0 else FINISHED) && Suits(saving, 0, n) && Open(es)
  }

  predicate Open(es: seq<Entry>) { forall e :: e in es ==> e.tag != FINISHED }

  predicate HasRoom(es: seq<Entry>, n: nat) { Size(es) + n + 2 <= SIZE }

  /** esd_manager_save_scene; false is -ENOMEM. */
  function Save(es: seq<Entry>, tag: int, v: seq<byte>): (r: (seq<Entry>, bool)) {
    if !HasRoom(es, |v|) then (es, false)
    else match Find(es, 0, true, tag, |v|)
      case Some(k) => (es[k := es[k].(value := v + es[k].value[|v|..])], true)
      case None => if MeetsBlank(es, true, tag, |v|) then (es, true) else (es + [Entry(tag % 256, v)], true)
  }

  /** esd_manager_restore_scene with a buffer of `n` bytes: the bytes copied, or failure. */
  function Restore(es: seq<Entry>, tag: int, n: nat): Option<seq<byte>> {
    match Find(es, 0, false, tag, n)
    case Some(k) => Some(es[k].value)
    case None => if MeetsBlank(es, false, tag, n) then Some([]) else None
  }

  /** A save is refused exactly if tag, length and value do not fit behind the entries; 250 bytes always suffice. */
  lemma SaveFits(es: seq<Entry>, tag: int, v: seq<byte>)
    requires Size(es) <= 250
    ensures var (es', ok) := Save(es, tag, v);
      && Size(es') <= 250
      && (ok <==> Size(es) + 2 + |v| <= 250)
      && (!ok ==> es' == es)
  {
    var r := Find(es, 0, true, tag, |v|);
    hide Find, MeetsBlank, Size;
    if r.Some? {
      var was := es[r.value].value;
      SizeRewrite(es, r.value, v + was[|v|..]);
    }
    SizeAppend(es, Entry(tag % 256, v));
  }

  /**
    The end mark reads as an entry of its own, without a value, as long as it lies
    within the scan; so an empty value under its tag is not stored.  In a store
    that was never used tag 0 takes its place.
  */
  lemma EndMarkReads(es: seq<Entry>, n: nat)
    requires Open(es) && Size(es) <= 250
    ensures var tag := if es == [] then 0 else 0xAA;
      && Restore(es, tag, n) == (if Size(es) < 248 then Some([]) else None)
      && Save(es, tag, []) == (if Size(es) == 248 then (es + [Entry(0xAA, [])], true) else (es, Size(es) < 248))
    ensures es == [] ==> Restore(es, 0xAA, n) == None
  {
    var tag := if es == [] then 0 else 0xAA;
    NotFound(es, 0, false, tag, n);
    NotFound(es, 0, true, tag, 0);
    hide Find, Size;
    assert es == [] ==> Size(es) == 0 by { EmptySize(); }
  }

  lemma EmptySize()
    ensures Size([]) == 0
  {
  }

  lemma {:induction false} NotFound(es: seq<Entry>, at: nat, saving: bool, tag: int, n: nat)
    requires forall e :: e in es ==> e.tag != tag
    ensures Find(es, at, saving, tag, n) == None
    decreases |es|
  {
    if es != [] { NotFound(es[1..], at + Width(es[0]), saving, tag, n); }
  }

  // ----- when a saved value comes back -----

  lemma {:induction false} SizeAppend(es: seq<Entry>, e: Entry)
    ensures Size(es + [e]) == Size(es) + Width(e)
  {
    if es == [] {
      assert [e][1..] == [];
    } else {
      assert (es + [e])[1..] == es[1..] + [e];
      SizeAppend(es[1..], e);
    }
  }

  lemma Front(es: seq<Entry>)
    ensures es == [] ==> Open(es) && Size(es) == 0
    ensures es != [] ==> Size(es) == Width(es[0]) + Size(es[1..])
    ensures es != [] ==> (Open(es) <==> es[0].tag != FINISHED && Open(es[1..]))
  {
  }

  lemma FindStep(es: seq<Entry>, at: nat, saving: bool, tag: int, n: nat)
    ensures Find(es, at, saving, tag, n) ==
      if es == [] || at >= SIZE - 2 then None
      else if es[0].tag == tag && Suits(saving, |es[0].value|, n) then Some(0)
      else if es[0].tag == FINISHED then None
      else match Find(es[1..], at + Width(es[0]), saving, tag, n)
        case Some(k) => Some(k + 1)
        case None => None
  {
  }

  /** Appending an entry with a value: it is found exactly if nothing before it was, and nothing hides it. */
  lemma {:induction false} FindAppended(es: seq<Entry>, at: nat, e: Entry, n: nat)
    requires at + Size(es) + Width(e) <= SIZE && e.value != [] && |e.value| == n
    ensures var r, r' := Find(es, at, false, e.tag, n), Find(es + [e], at, false, e.tag, n);
      r' == if r.Some? then r else if Open(es) then Some(|es|) else None
  {
    hide Size, Open, Find;
    FindStep(es + [e], at, false, e.tag, n);
    FindStep(es, at, false, e.tag, n);
    Front(es);
    if es == [] {
      assert es + [e] == [e];
    } else {
      assert (es + [e])[0] == es[0] && (es + [e])[1..] == es[1..] + [e];
      FindAppended(es[1..], at + Width(es[0]), e, n);
    }
  }

  /** Rewriting a value in place does not move any scan. */
  lemma {:induction false} FindRewritten(es: seq<Entry>, at: nat, k: nat, v: seq<byte>, saving: bool, tag: int, n: nat)
    requires k < |es| && |v| == |es[k].value|
    ensures Find(es[k := es[k].(value := v)], at, saving, tag, n) == Find(es, at, saving, tag, n)
  {
    var es' := es[k := es[k].(value := v)];
    if k == 0 {
      assert es'[1..] == es[1..];
    } else {
      assert es'[1..] == es[1..][k - 1 := es[k].(value := v)];
      FindRewritten(es[1..], at + Width(es[0]), k - 1, v, saving, tag, n);
    }
  }

  /** What `n` bytes saved under `tag` are restored as. */
  lemma SaveThenRestore(es: seq<Entry>, tag: byte, v: seq<byte>)
    requires v != [] && HasRoom(es, |v|)
    ensures var r, n := Restore(Save(es, tag, v).0, tag, |v|), |v|;
      var f, g := Find(es, 0, true, tag, n), Find(es, 0, false, tag, n);
      && (f == g && (f.Some? || Open(es)) ==> r == Some(v))
      && (f.Some? && g.Some? && f != g ==> r == Some(es[g.value].value))
      && (f.None? && g.Some? ==> r.Some? && |r.value| < n)
      && (g.None? && !(f.None? && Open(es)) ==> r.None? || r == Some([]))
  {
    hide Find;
    var n := |v|;
    var f, g := Find(es, 0, true, tag, n), Find(es, 0, false, tag, n);
    if f.Some? {
      var k := f.value;
      FindRewritten(es, 0, k, v + es[k].value[n..], false, tag, n);
      if g == f { assert v + es[k].value[n..] == v; }
    } else {
      FindAppended(es, 0, Entry(tag, v), n);
      if g.Some? { FirstIsNotLonger(es, 0, tag, n); }
    }
  }

  /** With no entry long enough, the one a restore hits is shorter. */
  lemma {:induction false} FirstIsNotLonger(es: seq<Entry>, at: nat, tag: int, n: nat)
    requires Find(es, at, true, tag, n).None? && Find(es, at, false, tag, n).Some?
    ensures |es[Find(es, at, false, tag, n).value].value| < n
  {
    if !(es[0].tag == tag && |es[0].value| <= n) {
      FirstIsNotLonger(es[1..], at + Width(es[0]), tag, n);
    }
  }

  /** The length of the first entry under `tag`, unless an entry tagged like the end mark comes before it. */
  function FirstLength(es: seq<Entry>, tag: byte): Option<nat> {
    if es == [] then None
    else if es[0].tag == tag then Some(|es[0].value|)
    else if es[0].tag == FINISHED then None
    else FirstLength(es[1..], tag)
  }

  /** Both scans stop at the same place exactly if the first entry under the tag has just that length. */
  lemma {:induction false} ScansAgree(es: seq<Entry>, at: nat, tag: byte, n: nat)
    requires at + Size(es) < SIZE - 2
    ensures var f, g := Find(es, at, true, tag, n), Find(es, at, false, tag, n);
      && (f == g && f.Some? <==> FirstLength(es, tag) == Some(n))
      && (f == g && f.None? <==> FirstLength(es, tag) == None)
  {
    if es != [] && es[0].tag != tag && es[0].tag != FINISHED {
      ScansAgree(es[1..], at + Width(es[0]), tag, n);
    } else if es != [] && es[0].tag == tag && tag != FINISHED && |es[0].value| != n {
      OneScanHits(es, at, tag, n);
    }
  }

  /** An entry of another length stops one scan and lets the other pass. */
  lemma OneScanHits(es: seq<Entry>, at: nat, tag: byte, n: nat)
    requires es != [] && at < SIZE - 2 && es[0].tag == tag && |es[0].value| != n
    ensures Find(es, at, true, tag, n) != Find(es, at, false, tag, n)
  {
  }

  /**
    The law of the store, exactly: every value of `n` bytes that is saved under
    `tag` is restored, if and only if the first entry under the tag has that
    length, or there is none and the store is open.
  */
  lemma SaveRestoreLaw(es: seq<Entry>, tag: byte, n: nat)
    requires 0 < n && HasRoom(es, n)
    ensures (forall v: seq<byte> :: |v| == n ==> Restore(Save(es, tag, v).0, tag, n) == Some(v))
      <==> match FirstLength(es, tag) case Some(m) => m == n case None => Open(es)
  {
    var f, g := Find(es, 0, true, tag, n), Find(es, 0, false, tag, n);
    ScansAgree(es, 0, tag, n);
    hide Find, Save, Restore, FirstLength, Open;
    if f == g && (f.Some? || Open(es)) {
      forall v: seq<byte> | |v| == n ensures Restore(Save(es, tag, v).0, tag, n) == Some(v) {
        SaveThenRestore(es, tag, v);
      }
    } else {
      var zeros, ones := seq(n, _ => 0 as byte), seq(n, _ => 1 as byte);
      assert zeros[0] != ones[0];
      SaveThenRestore(es, tag, zeros);
      SaveThenRestore(es, tag, ones);
      assert !(Restore(Save(es, tag, zeros).0, tag, n) == Some(zeros)
               && Restore(Save(es, tag, ones).0, tag, n) == Some(ones));
    }
  }

  /** For instance: a longer value saved later is never seen again. */
  lemma GrowthIsLost(tag: byte, old1: byte, v: seq<byte>)
    requires |v| == 2 && tag != FINISHED
    ensures var es := Save(Save([], tag, [old1]).0, tag, v).0; Restore(es, tag, 2) == Some([old1])
  {
    var es1 := Save([], tag, [old1]).0;
    assert es1 == [Entry(tag, [old1])];
    SizeAppend([], Entry(tag, [old1]));
    assert [] + [Entry(tag, [old1])] == es1;
    SaveThenRestore(es1, tag, v);
  }

  // ----- with one length per tag the store is a map -----

  type Lengths = byte -> nat

  ghost predicate Fixed(es: seq<Entry>, len: Lengths) {
    && (forall e :: e in es ==> e.tag != FINISHED && |e.value| == len(e.tag) != 0)
    && (forall i, j :: 0 <= i < j < |es| ==> es[i].tag != es[j].tag)
  }

  function AsMap(es: seq<Entry>): map<byte, seq<byte>> {
    if es == [] then map[] else AsMap(es[1..])[es[0].tag := es[0].value]
  }

  lemma {:induction false} AsMapHas(es: seq<Entry>, len: Lengths, k: nat)
    requires Fixed(es, len) && k < |es|
    ensures es[k].tag in AsMap(es) && AsMap(es)[es[k].tag] == es[k].value
  {
    if k != 0 { AsMapHas(es[1..], len, k - 1); }
  }

  lemma {:induction false} FindIsLookup(es: seq<Entry>, at: nat, len: Lengths, saving: bool, tag: byte)
    requires Fixed(es, len) && at + Size(es) <= SIZE
    ensures Find(es, at, saving, tag, len(tag)).Some? <==> tag in AsMap(es)
  {
    if es != [] {
      assert es[0] in es;
      if es[0].tag != tag { FindIsLookup(es[1..], at + Width(es[0]), len, saving, tag); }
    }
  }

  lemma RestoreIsLookup(es: seq<Entry>, len: Lengths, tag: byte)
    requires Fixed(es, len) && Size(es) <= SIZE && tag != FINISHED
    ensures Restore(es, tag, len(tag))
         == if tag in AsMap(es) then Some(AsMap(es)[tag]) else if tag == 0 && es == [] then Some([]) else None
  {
    hide Find;
    FindIsLookup(es, 0, len, false, tag);
    var r := Find(es, 0, false, tag, len(tag));
    if r.Some? { AsMapHas(es, len, r.value); }
  }

  lemma {:induction false} AsMapAppend(es: seq<Entry>, e: Entry)
    requires e.tag !in AsMap(es)
    ensures AsMap(es + [e]) == AsMap(es)[e.tag := e.value]
  {
    if es == [] {
      assert [e][1..] == [];
    } else {
      assert (es + [e])[1..] == es[1..] + [e];
      AsMapAppend(es[1..], e);
    }
  }

  lemma {:induction false} AsMapRewrite(es: seq<Entry>, len: Lengths, k: nat, v: seq<byte>)
    requires Fixed(es, len) && k < |es| && |v| == |es[k].value|
    ensures AsMap(es[k := es[k].(value := v)]) == AsMap(es)[es[k].tag := v]
  {
    var es' := es[k := es[k].(value := v)];
    if k == 0 {
      assert es'[1..] == es[1..];
    } else {
      assert es'[1..] == es[1..][k - 1 := es[k].(value := v)];
      AsMapRewrite(es[1..], len, k - 1, v);
      assert es[0].tag != es[k].tag;
    }
  }

  lemma SaveIsUpdate(es: seq<Entry>, len: Lengths, tag: byte, v: seq<byte>)
    requires Fixed(es, len) && Size(es) <= SIZE && tag != FINISHED && |v| == len(tag) != 0
    ensures var r := Save(es, tag, v);
      && Fixed(r.0, len) && Size(r.0) <= SIZE && (es != [] ==> r.0 != [])
      && AsMap(r.0) == if r.1 then AsMap(es)[tag := v] else AsMap(es)
  {
    hide Find;
    FindIsLookup(es, 0, len, true, tag);
    var f := Find(es, 0, true, tag, |v|);
    if HasRoom(es, |v|) {
      if f.Some? {
        var k := f.value;
        assert es[k] in es;
        var v' := v + es[k].value[|v|..];
        assert v' == v;
        AsMapRewrite(es, len, k, v);
        SizeRewrite(es, k, v);
        FixedRewrite(es, len, k, v);
      } else {
        AsMapAppend(es, Entry(tag, v));
        SizeAppend(es, Entry(tag, v));
        forall i | 0 <= i < |es| ensures es[i].tag != tag { AsMapHas(es, len, i); }
      }
    }
  }

  lemma FixedRewrite(es: seq<Entry>, len: Lengths, k: nat, v: seq<byte>)
    requires Fixed(es, len) && k < |es| && |v| == |es[k].value|
    ensures Fixed(es[k := es[k].(value := v)], len)
  {
    var es' := es[k := es[k].(value := v)];
    forall e | e in es' ensures e.tag != FINISHED && |e.value| == len(e.tag) != 0 {
      var i :| 0 <= i < |es'| && es'[i] == e;
      assert es[i] in es;
    }
  }

  lemma {:induction false} SizeRewrite(es: seq<Entry>, k: nat, v: seq<byte>)
    requires k < |es| && |v| == |es[k].value|
    ensures Size(es[k := es[k].(value := v)]) == Size(es)
  {
    var es' := es[k := es[k].(value := v)];
    if k == 0 {
      assert es'[1..] == es[1..];
    } else {
      assert es'[1..] == es[1..][k - 1 := es[k].(value := v)];
      SizeRewrite(es[1..], k - 1, v);
    }
  }

  /** A run of saves, with the map a caller would keep of those that were accepted. */
  function SaveAll(es: seq<Entry>, m: map<byte, seq<byte>>, ops: seq<Entry>): (seq<Entry>, map<byte, seq<byte>>)
    decreases |ops|
  {
    if ops == [] then (es, m)
    else
      var r := Save(es, ops[0].tag, ops[0].value);
      SaveAll(r.0, if r.1 then m[ops[0].tag := ops[0].value] else m, ops[1..])
  }

  lemma {:induction false} SaveAllKeeps(es: seq<Entry>, ops: seq<Entry>, len: Lengths)
    requires Fixed(es, len) && Size(es) <= SIZE
    requires forall e :: e in ops ==> e.tag != FINISHED && |e.value| == len(e.tag) != 0
    ensures var r := SaveAll(es, AsMap(es), ops); Fixed(r.0, len) && Size(r.0) <= SIZE && r.1 == AsMap(r.0)
    decreases |ops|
  {
    if ops != [] {
      assert ops[0] in ops;
      SaveIsUpdate(es, len, ops[0].tag, ops[0].value);
      SaveAllKeeps(Save(es, ops[0].tag, ops[0].value).0, ops[1..], len);
    }
  }

  /**
    After any saves from an empty store, with one length per tag, a restore gives
    the value last accepted under its tag and fails for a tag never accepted;
    only tag zero reads as present, without a value, while the store is empty.
  */
  lemma StoreIsMap(ops: seq<Entry>, len: Lengths, tag: byte)
    requires forall e :: e in ops ==> e.tag != FINISHED && |e.value| == len(e.tag) != 0
    requires tag != FINISHED
    ensures var r := SaveAll([], map[], ops);
      Restore(r.0, tag, len(tag))
      == if tag in r.1 then Some(r.1[tag]) else if tag == 0 && r.0 == [] then Some([]) else None
  {
    SaveAllKeeps([], ops, len);
    RestoreIsLookup(SaveAll([], map[], ops).0, len, tag);
  }
}
