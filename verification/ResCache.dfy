/**
  The reference-counted caches of scenes and texts.  A block is found by source
  and id, handed out by address, and given back by address.  The functions below
  say what each operation does to the list of blocks; `Ledger` is what the
  callers could write down themselves: how often each address was handed out and
  not given back yet.
*/
module ResCache {
  import opened Basics

  /** sizeof(buf_block_t): the data starts behind the block's own fields. */
  const HEADER := 44

  datatype Entry = Entry(source: nat, id: nat, size: nat, refs: nat, addr: nat)

  datatype Key = Key(source: nat, id: nat)

  predicate Matches(e: Entry, k: Key) { e.source == k.source && e.id == k.id }

  function FindKey(es: seq<Entry>, k: Key): (r: nat)
    ensures r <= |es| && (r < |es| ==> Matches(es[r], k)) && forall i :: 0 <= i < r ==> !Matches(es[i], k)
  {
    if es == [] || Matches(es[0], k) then 0 else 1 + FindKey(es[1..], k)
  }

  function FindAddr(es: seq<Entry>, a: nat): (r: nat)
    ensures r <= |es| && (r < |es| ==> es[r].addr == a) && forall i :: 0 <= i < r ==> es[i].addr != a
  {
    if es == [] || es[0].addr == a then 0 else 1 + FindAddr(es[1..], a)
  }

  datatype Cache = Cache(es: seq<Entry>, freed: seq<nat>)

  datatype Event =
    | Get(k: Key, size: nat, heap: Option<nat>)
    | Try(k: Key)
    | Free(addr: nat)

  /** What the caller is handed: an address, or nothing. */
  function Handed(c: Cache, e: Event): Option<nat> {
    match e
    case Get(k, _, heap) =>
      var i := FindKey(c.es, k);
      if i < |c.es| then Some(c.es[i].addr) else if heap.Some? then Some(heap.value + HEADER) else None
    case Try(k) =>
      var i := FindKey(c.es, k);
      if i < |c.es| then Some(c.es[i].addr) else None
    case Free(_) => None
  }

  function AddRef(es: seq<Entry>, i: nat): seq<Entry>
    requires i < |es|
  {
    es[i := es[i].(refs := es[i].refs + 1)]
  }

  /** The _get, _try and _free operations of one cache; `heap` is what an allocation would return. */
  function Step(c: Cache, e: Event): Cache {
    match e
    case Get(k, size, heap) =>
      var i := FindKey(c.es, k);
      if i < |c.es| then c.(es := AddRef(c.es, i))
      else if heap.Some? then c.(es := [Entry(k.source, k.id, HEADER + size, 1, heap.value + HEADER)] + c.es)
      else c
    case Try(k) =>
      var i := FindKey(c.es, k);
      if i < |c.es| then c.(es := AddRef(c.es, i)) else c
    case Free(a) =>
      var i := FindAddr(c.es, a);
      if i == |c.es| then c
      else if c.es[i].refs > 1 then c.(es := c.es[i := c.es[i].(refs := c.es[i].refs - 1)])
      else Cache(Removed(c.es, i), c.freed + [a])
  }

  // ----- the callers' ledger -----

  type Ledger = map<nat, nat>

  function Acquire(l: Ledger, a: nat): Ledger { l[a := (if a in l then l[a] else 0) + 1] }

  function Release(l: Ledger, a: nat): Ledger {
    if a !in l then l else if l[a] <= 1 then l - {a} else l[a := l[a] - 1]
  }

  function Note(l: Ledger, c: Cache, e: Event): Ledger {
    if e.Free? then Release(l, e.addr)
    else match Handed(c, e)
      case Some(a) => Acquire(l, a)
      case None => l
  }

  function Run(c: Cache, l: Ledger, es: seq<Event>): (Cache, Ledger)
    decreases |es|
  {
    if es == [] then (c, l) else Run(Step(c, es[0]), Note(l, c, es[0]), es[1..])
  }

  /** The heap never hands out the address of a live block. */
  ghost predicate HeapOk(c: Cache, e: Event) {
    e.Get? && e.heap.Some? ==> forall i :: 0 <= i < |c.es| ==> c.es[i].addr != e.heap.value + HEADER
  }

  ghost predicate HeapAlwaysOk(c: Cache, es: seq<Event>)
    decreases |es|
  {
    es == [] || (HeapOk(c, es[0]) && HeapAlwaysOk(Step(c, es[0]), es[1..]))
  }

  // ----- the invariant -----

  ghost predicate Distinct(es: seq<Entry>) {
    forall i, j :: 0 <= i < j < |es| ==>
      es[i].addr != es[j].addr && !(es[i].source == es[j].source && es[i].id == es[j].id)
  }

  ghost predicate Agrees(es: seq<Entry>, l: Ledger) {
    && (forall i :: 0 <= i < |es| ==> es[i].addr in l && l[es[i].addr] == es[i].refs && 0 < es[i].refs)
    && (forall a :: a in l ==> FindAddr(es, a) < |es|)
  }

  ghost predicate Inv(c: Cache, l: Ledger) {
    Distinct(c.es) && Agrees(c.es, l)
  }

  lemma FoundAt(es: seq<Entry>, i: nat)
    requires Distinct(es) && i < |es|
    ensures FindAddr(es, es[i].addr) == i
  {
  }

  /** Changing one reference count. */
  lemma CountKeeps(es: seq<Entry>, l: Ledger, i: nat, n: nat)
    requires Distinct(es) && Agrees(es, l) && i < |es| && 0 < n
    ensures var es', a := es[i := es[i].(refs := n)], es[i].addr; Distinct(es') && Agrees(es', l[a := n])
  {
    var es', a := es[i := es[i].(refs := n)], es[i].addr;
    forall b | b in l[a := n] ensures FindAddr(es', b) < |es'| {
      if b != a {
        var j := FindAddr(es, b);
        assert es'[j].addr == b;
      } else {
        assert es'[i].addr == a;
      }
    }
  }

  lemma InsertKeeps(es: seq<Entry>, l: Ledger, e: Entry)
    requires Distinct(es) && Agrees(es, l) && e.refs == 1
    requires FindKey(es, Key(e.source, e.id)) == |es| && forall i :: 0 <= i < |es| ==> es[i].addr != e.addr
    ensures Distinct([e] + es) && Agrees([e] + es, l[e.addr := 1]) && e.addr !in l
  {
    var es' := [e] + es;
    forall b | b in l[e.addr := 1] ensures FindAddr(es', b) < |es'| {
      if b != e.addr {
        var j := FindAddr(es, b);
        assert es'[j + 1].addr == b;
      } else {
        assert es'[0].addr == b;
      }
    }
  }

  function Removed(es: seq<Entry>, i: nat): (r: seq<Entry>)
    requires i < |es|
    ensures |r| == |es| - 1 && forall j :: 0 <= j < |r| ==> r[j] == es[if j < i then j else j + 1]
  {
    es[..i] + es[i + 1..]
  }

  lemma RemoveDistinct(es: seq<Entry>, i: nat)
    requires Distinct(es) && i < |es|
    ensures Distinct(Removed(es, i))
  {
  }

  lemma RemoveKeeps(es: seq<Entry>, l: Ledger, i: nat)
    requires Distinct(es) && Agrees(es, l) && i < |es|
    ensures Agrees(Removed(es, i), l - {es[i].addr})
  {
    hide Removed;
    var es', a := Removed(es, i), es[i].addr;
    forall b | b in l - {a} ensures FindAddr(es', b) < |es'| {
      var j := FindAddr(es, b);
      assert es'[if j < i then j else j - 1].addr == b;
    }
  }

  lemma StepKeeps(c: Cache, l: Ledger, e: Event)
    requires Inv(c, l) && HeapOk(c, e)
    ensures Inv(Step(c, e), Note(l, c, e))
  {
    hide Distinct, Agrees, FindKey, FindAddr;
    match e {
      case Get(k, size, heap) =>
        var i := FindKey(c.es, k);
        if i < |c.es| {
          AgreesAt(c.es, l, i);
          CountKeeps(c.es, l, i, c.es[i].refs + 1);
        } else if heap.Some? {
          InsertKeeps(c.es, l, Entry(k.source, k.id, HEADER + size, 1, heap.value + HEADER));
        }
      case Try(k) =>
        var i := FindKey(c.es, k);
        if i < |c.es| {
          AgreesAt(c.es, l, i);
          CountKeeps(c.es, l, i, c.es[i].refs + 1);
        }
      case Free(a) =>
        var i := FindAddr(c.es, a);
        if i < |c.es| {
          AgreesAt(c.es, l, i);
          if c.es[i].refs > 1 {
            CountKeeps(c.es, l, i, c.es[i].refs - 1);
          } else {
            RemoveKeeps(c.es, l, i);
            RemoveDistinct(c.es, i);
          }
        } else {
          AbsentAddr(c.es, l, a);
        }
    }
  }

  lemma AgreesAt(es: seq<Entry>, l: Ledger, i: nat)
    requires Agrees(es, l) && i < |es|
    ensures es[i].addr in l && l[es[i].addr] == es[i].refs && 0 < es[i].refs
  {
  }

  lemma AbsentAddr(es: seq<Entry>, l: Ledger, a: nat)
    requires Agrees(es, l) && FindAddr(es, a) == |es|
    ensures a !in l
  {
  }

  /**
    Over every run from an empty cache: at most one block per key and per
    address, and each block's reference count is exactly the number of times its
    address was handed out and not yet given back.
  */
  lemma {:induction false} RunKeeps(c: Cache, l: Ledger, es: seq<Event>)
    requires Inv(c, l) && HeapAlwaysOk(c, es)
    ensures Inv(Run(c, l, es).0, Run(c, l, es).1)
    decreases |es|
  {
    hide Inv, Step, Note;
    if es != [] {
      StepKeeps(c, l, es[0]);
      RunKeeps(Step(c, es[0]), Note(l, c, es[0]), es[1..]);
    }
  }

  function Lookup(c: Cache, k: Key): Option<nat> {
    var i := FindKey(c.es, k);
    if i < |c.es| then Some(c.es[i].addr) else None
  }

  lemma LookupIs(es: seq<Entry>, k: Key, i: nat)
    requires Distinct(es) && i < |es| && Matches(es[i], k)
    ensures FindKey(es, k) == i
  {
  }

  lemma NoOtherKey(es: seq<Entry>, k: Key, i: nat)
    requires Distinct(es) && i < |es| && Matches(es[i], k)
    ensures FindKey(Removed(es, i), k) == |es| - 1
  {
    hide Removed;
  }

  /** Taking the block at `j` away loses the key of that block and no other. */
  lemma RemoveLookup(es: seq<Entry>, k: Key, i: nat, j: nat)
    requires Distinct(es) && i < |es| && Matches(es[i], k) && j < |es|
    ensures FindKey(Removed(es, j), k) == if i == j then |es| - 1 else if i < j then i else i - 1
  {
    hide Removed, FindKey;
    if i == j {
      NoOtherKey(es, k, i);
    } else {
      RemoveDistinct(es, j);
      LookupIs(Removed(es, j), k, if i < j then i else i - 1);
    }
  }

  lemma FreeKeepsAddress(c: Cache, l: Ledger, b: nat, k: Key, i: nat)
    requires Inv(c, l) && i < |c.es| && FindKey(c.es, k) == i
    ensures var c', a := Step(c, Free(b)), c.es[i].addr; var last := b == a && c.es[i].refs == 1;
      && (Lookup(c', k) == if last then None else Some(a))
      && (last <==> |c'.freed| > |c.freed| && c'.freed[|c.freed|] == a)
  {
    hide FindKey, FindAddr, Distinct, Agrees;
    var j := FindAddr(c.es, b);
    if b == c.es[i].addr { FoundAt(c.es, i); }
    if j < |c.es| {
      AgreesAt(c.es, l, j);
      if c.es[j].refs > 1 {
        CountKeeps(c.es, l, j, c.es[j].refs - 1);
        LookupIs(Step(c, Free(b)).es, k, i);
      } else {
        RemoveLookup(c.es, k, i, j);
        if j == i { assert Step(c, Free(b)).freed[|c.freed|] == b; }
        if b == c.es[i].addr { assert i == j; }
      }
    }
  }

  /**
    A key keeps its address as long as anyone holds it: a step takes the block
    away exactly if it is the last release of that address, and only then is its
    memory freed.
  */
  lemma KeyKeepsAddress(c: Cache, l: Ledger, e: Event, k: Key, a: nat)
    requires Inv(c, l) && HeapOk(c, e) && Lookup(c, k) == Some(a)
    ensures a in l
    ensures var c' := Step(c, e); var last := e == Free(a) && l[a] == 1;
      && (Lookup(c', k) == if last then None else Some(a))
      && (last <==> |c'.freed| > |c.freed| && c'.freed[|c.freed|] == a)
  {
    hide FindKey, FindAddr, Distinct, Agrees;
    var i := FindKey(c.es, k);
    AgreesAt(c.es, l, i);
    if e.Free? {
      FreeKeepsAddress(c, l, e.addr, k, i);
    } else {
      StepKeeps(c, l, e);
      var c' := Step(c, e);
      LookupIs(c'.es, k, if |c'.es| > |c.es| then i + 1 else i);
    }
  }
}
