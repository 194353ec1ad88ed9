/**
  The application switcher: a ring of applications, some of them plugged in, and
  a walk around the ring to the next, previous or last used one.
*/
module AppSwitch {
  const NOWHERE := 0xff

  datatype App = App(name: string, plugged: bool)

  /** The comparison runs over the given name only, so it is a prefix test. */
  predicate Matches(app: App, name: string) { name <= app.name }

  /** Character by character, as far as the given name goes. */
  lemma MatchesIff(app: App, name: string)
    ensures Matches(app, name)
      <==> |name| <= |app.name| && forall i :: 0 <= i < |name| ==> app.name[i] == name[i]
  {
    if |name| <= |app.name| && forall i :: 0 <= i < |name| ==> app.name[i] == name[i] {
      assert app.name[..|name|] == name;
    }
  }

  predicate Enterable(app: App, name: string, force: bool) { Matches(app, name) && (app.plugged || force) }

  predicate IsLastMatch(apps: seq<App>, name: string, force: bool, t: nat)
    requires t < |apps|
  {
    Enterable(apps[t], name, force) && forall i :: t < i < |apps| ==> !Enterable(apps[i], name, force)
  }

  function Count(apps: seq<App>): (n: nat)
    ensures n <= |apps|
  {
    if apps == [] then 0 else (if apps[0].plugged then 1 else 0) + Count(apps[1..])
  }

  ghost predicate AnyPlugged(apps: seq<App>) { exists i :: 0 <= i < |apps| && apps[i].plugged }

  function Plug(apps: seq<App>, name: string, on: bool): (r: seq<App>)
    ensures |r| == |apps|
    ensures forall i :: 0 <= i < |apps| ==> r[i] == if Matches(apps[i], name) then apps[i].(plugged := on) else apps[i]
  {
    if apps == [] then []
    else [if Matches(apps[0], name) then apps[0].(plugged := on) else apps[0]] + Plug(apps[1..], name, on)
  }

  lemma {:induction false} CountUpdate(apps: seq<App>, i: nat, on: bool)
    requires i < |apps| && apps[i].plugged != on
    ensures Count(apps[i := apps[i].(plugged := on)]) == Count(apps) + if on then 1 else -1
  {
    var b := apps[i := apps[i].(plugged := on)];
    if i == 0 {
      assert b[1..] == apps[1..];
    } else {
      CountUpdate(apps[1..], i - 1, on);
      assert b[1..] == apps[1..][i - 1 := apps[i].(plugged := on)];
    }
  }

  lemma {:induction false} CountZero(apps: seq<App>)
    ensures Count(apps) > 0 <==> AnyPlugged(apps)
  {
    if apps != [] {
      CountZero(apps[1..]);
      if AnyPlugged(apps) && !apps[0].plugged {
        var i :| 0 <= i < |apps| && apps[i].plugged;
        assert apps[1..][i - 1].plugged;
      }
      if AnyPlugged(apps[1..]) {
        var i :| 0 <= i < |apps[1..]| && apps[1..][i].plugged;
        assert apps[i + 1].plugged;
      }
    }
  }

  /** `i` is plugged in, and nothing else is. */
  ghost predicate OnlyPlugged(apps: seq<App>, i: nat) {
    i < |apps| && forall j :: 0 <= j < |apps| ==> (apps[j].plugged <==> j == i)
  }

  lemma CountOne(apps: seq<App>, i: nat)
    requires i < |apps| && apps[i].plugged
    ensures Count(apps) <= 1 <==> OnlyPlugged(apps, i)
  {
    hide Count;
    var rest := apps[i := apps[i].(plugged := false)];
    CountUpdate(apps, i, false);
    CountZero(rest);
    if AnyPlugged(rest) {
      var j :| 0 <= j < |rest| && rest[j].plugged;
      assert apps[j].plugged && j != i;
    } else {
      forall j | 0 <= j < |apps| ensures apps[j].plugged <==> j == i {
        assert j != i ==> rest[j] == apps[j];
      }
    }
  }

  // ----- the lock words -----

  datatype LockOp = Hold(reason: bv8) | Drop(reason: bv8)

  function LockStep(word: bv8, op: LockOp): bv8 {
    match op
    case Hold(r) => word | r
    case Drop(r) => word & !r
  }

  function LockRun(ops: seq<LockOp>): bv8 {
    if ops == [] then 0 else LockStep(LockRun(ops[..|ops| - 1]), ops[|ops| - 1])
  }

  predicate OneBit(bit: bv8) { bit != 0 && bit & (bit - 1) == 0 }

  /** Reason `bit` was given at `k` and has not been taken back since. */
  ghost predicate HeldSince(ops: seq<LockOp>, bit: bv8, k: nat) {
    && k < |ops| && ops[k].Hold? && ops[k].reason & bit != 0
    && forall j :: k < j < |ops| && ops[j].Drop? ==> ops[j].reason & bit == 0
  }

  lemma BitStep(word: bv8, op: LockOp, bit: bv8)
    requires OneBit(bit)
    ensures LockStep(word, op) & bit != 0
      <==> (word & bit != 0 && !(op.Drop? && op.reason & bit != 0)) || (op.Hold? && op.reason & bit != 0)
  {
    var r := op.reason;
    assert word & bit == 0 || word & bit == bit;
    assert r & bit == 0 || r & bit == bit;
    assert (word | r) & bit == (word & bit) | (r & bit);
    assert r & bit == bit ==> (word & !r) & bit == 0;
    assert r & bit == 0 ==> (word & !r) & bit == word & bit;
  }

  /** A reason locks the switcher from the moment it is given until it is taken back, however reasons are mixed. */
  lemma {:induction false} LockedIff(ops: seq<LockOp>, bit: bv8)
    requires OneBit(bit)
    ensures LockRun(ops) & bit != 0 <==> exists k: nat :: HeldSince(ops, bit, k)
    decreases |ops|
  {
    if ops == [] {
      assert LockRun(ops) & bit == 0;
    } else {
      hide LockStep, OneBit;
      var front, n := ops[..|ops| - 1], |ops| - 1;
      LockedIff(front, bit);
      BitStep(LockRun(front), ops[n], bit);
      if k: nat :| HeldSince(front, bit, k) {
        if !(ops[n].Drop? && ops[n].reason & bit != 0) { assert HeldSince(ops, bit, k); }
      }
      if ops[n].Hold? && ops[n].reason & bit != 0 { assert HeldSince(ops, bit, n); }
      if k: nat :| HeldSince(ops, bit, k) {
        if k < n { assert HeldSince(front, bit, k); }
      }
    }
  }

  // ----- the walk -----

  datatype Mode = Next | Prev | Last

  lemma Product(n: int, d: int)
    requires n > 0 && d >= 0
    ensures n * d >= 0
  {
  }

  lemma Multiple(n: int, d: int)
    requires n > 0 && d != 0
    ensures n * d >= n || n * d <= -n
  {
    if d > 0 {
      Product(n, d - 1);
    } else {
      Product(n, -d - 1);
    }
  }

  /** A remainder of a number below twice the divisor. */
  lemma ModOnce(x: nat, n: nat)
    requires x < 2 * n
    ensures x % n == if x < n then x else x - n
  {
    var e := if x < n then x else x - n;
    var q := if x < n then 0 else 1;
    var d := x / n - q;
    assert n * d == e - x % n;
    if d != 0 { Multiple(n, d); }
  }

  /** One step around the ring; a walk that began at the last used application goes on backwards. */
  function Ahead(mode: Mode, num: nat, i: nat): (j: nat)
    requires num > 0
    ensures j < num
    ensures mode == Next && i < num ==> j == if i + 1 == num then 0 else i + 1
    ensures mode != Next && i < num ==> j == if i == 0 then num - 1 else i - 1
  {
    if i < num then
      ModOnce(if mode == Next then i + 1 else i - 1 + num, num);
      if mode == Next then (i + 1) % num else (i - 1 + num) % num
    else if mode == Next then (i + 1) % num else (i - 1 + num) % num
  }

  /** The first step of a switcher that stands nowhere yet is counted from the index 255. */
  lemma AheadFromNowhere(mode: Mode, num: nat)
    requires 0 < num <= 25
    ensures exists q: nat :: num * q + Ahead(mode, num, NOWHERE) == if mode == Next then 256 else 254 + num
  {
    var x := if mode == Next then 256 else 254 + num;
    assert num * (x / num) + Ahead(mode, num, NOWHERE) == x;
  }

  function Start(mode: Mode, num: nat, cur: nat, last: nat): nat
    requires num > 0
  {
    if mode == Last then last else Ahead(mode, num, cur)
  }

  datatype Loop = Going(mode: Mode, cur: nat, last: nat) | Refused(cur: nat, last: nat) | Chosen(cur: nat, last: nat)

  /** Between two hops: the indices name applications; nothing has been chosen yet at first. */
  predicate Sane(num: nat, s: Loop) {
    num > 0 && (s.cur < num || s.cur == NOWHERE) && (s.Going? && s.mode == Last ==> s.last < num)
  }

  /** One pass from the label to the jump back. */
  function Hop(apps: seq<App>, force: bool, s: Loop): (r: Loop)
    requires Sane(|apps|, s)
    ensures Sane(|apps|, r)
  {
    if !s.Going? then s
    else
      var target := Start(s.mode, |apps|, s.cur, s.last);
      if target == s.cur then Refused(s.cur, s.last)
      else if apps[target].plugged || force then Chosen(target, s.cur)
      else Going(if s.mode == Last then Prev else s.mode, target, s.cur)
  }

  function Hops(apps: seq<App>, force: bool, s: Loop, k: nat): (r: Loop)
    requires Sane(|apps|, s)
    ensures Sane(|apps|, r)
  {
    if k == 0 then s else Hop(apps, force, Hops(apps, force, s, k - 1))
  }

  /** The index the k-th hop aims at when none before it succeeds. */
  function Target(s: Loop, num: nat, k: nat): (t: nat)
    requires Sane(num, s) && s.Going?
    ensures t < num
  {
    if k == 0 then Start(s.mode, num, s.cur, s.last) else Ahead(s.mode, num, Target(s, num, k - 1))
  }

  /** How many steps take the walk from one index to another. */
  function Steps(mode: Mode, num: nat, from: nat, to: nat): (k: nat)
    requires from < num && to < num
    ensures k < num
  {
    if mode == Next then (if to >= from then to - from else to - from + num)
    else if to <= from then from - to else from - to + num
  }

  lemma {:induction false} TargetAt(s: Loop, num: nat, k: nat)
    requires Sane(num, s) && s.Going? && k < num
    ensures Steps(s.mode, num, Target(s, num, 0), Target(s, num, k)) == k
  {
    hide Ahead;
    if k > 0 { TargetAt(s, num, k - 1); }
  }

  /** The first `num` targets visit every application. */
  lemma TargetsCover(s: Loop, num: nat, i: nat)
    requires Sane(num, s) && s.Going? && i < num
    ensures Target(s, num, Steps(s.mode, num, Target(s, num, 0), i)) == i
  {
    TargetAt(s, num, Steps(s.mode, num, Target(s, num, 0), i));
  }

  ghost predicate AllMissed(apps: seq<App>, s: Loop, k: nat)
    requires Sane(|apps|, s) && s.Going?
  {
    forall j: nat :: j < k ==> !apps[Target(s, |apps|, j)].plugged
  }

  /** The walk has a first move: it does not start and end at the only application or at itself. */
  predicate Moves(num: nat, s: Loop) { !(num == 1 && s.cur == 0) && !(s.Going? && s.mode == Last && s.last == s.cur) }

  function Before(s: Loop, num: nat, k: nat): nat
    requires Sane(num, s) && s.Going?
  {
    if k == 0 then s.cur else Target(s, num, k - 1)
  }

  /** After k misses the walk stands at the k-th target. */
  lemma {:induction false} MissesGo(apps: seq<App>, s: Loop, k: nat)
    requires Sane(|apps|, s) && s.Going? && Moves(|apps|, s) && AllMissed(apps, s, k)
    requires |apps| == 1 ==> k <= 1
    ensures var r := Hops(apps, false, s, k);
      && r.Going? && r.cur == Before(s, |apps|, k)
      && (k > 0 ==> r.last == Before(s, |apps|, k - 1) && r.mode == if s.mode == Last then Prev else s.mode)
      && (k == 0 ==> r == s)
  {
    hide Ahead;
    if k > 0 {
      MissesGo(apps, s, k - 1);
      assert !apps[Target(s, |apps|, k - 1)].plugged;
    }
  }

  /** The first plugged target. */
  lemma FirstHit(apps: seq<App>, s: Loop, bound: nat) returns (k: nat)
    requires Sane(|apps|, s) && s.Going? && apps[Target(s, |apps|, bound)].plugged
    ensures k <= bound && AllMissed(apps, s, k) && apps[Target(s, |apps|, k)].plugged
  {
    k := 0;
    while !apps[Target(s, |apps|, k)].plugged
      invariant k <= bound && AllMissed(apps, s, k)
      decreases bound - k
    {
      k := k + 1;
    }
  }

  ghost predicate SelectsAt(apps: seq<App>, s: Loop, k: nat)
    requires Sane(|apps|, s) && s.Going?
  {
    && AllMissed(apps, s, k)
    && apps[Target(s, |apps|, k)].plugged
    && Hops(apps, false, s, k + 1) == Chosen(Target(s, |apps|, k), Before(s, |apps|, k))
  }

  /**
    With an application plugged in, the walk ends within `app_num` hops and
    chooses the first plugged application in its direction.
  */
  lemma SelectsFirst(apps: seq<App>, s: Loop)
    requires Sane(|apps|, s) && s.Going? && Moves(|apps|, s) && AnyPlugged(apps)
    ensures exists k: nat :: k < |apps| && SelectsAt(apps, s, k)
  {
    hide Ahead;
    var i :| 0 <= i < |apps| && apps[i].plugged;
    TargetsCover(s, |apps|, i);
    var k := FirstHit(apps, s, Steps(s.mode, |apps|, Target(s, |apps|, 0), i));
    MissesGo(apps, s, k);
    assert SelectsAt(apps, s, k);
  }

  lemma NonePlugged(apps: seq<App>, s: Loop, k: nat)
    requires Sane(|apps|, s) && s.Going? && !AnyPlugged(apps)
    ensures AllMissed(apps, s, k)
  {
  }

  lemma HopsNext(apps: seq<App>, force: bool, s: Loop, k: nat)
    requires Sane(|apps|, s)
    ensures Hops(apps, force, s, 0) == s
    ensures Hops(apps, force, s, k + 1) == Hop(apps, force, Hops(apps, force, s, k))
  {
  }

  /** How many passes the walk takes. */
  lemma WalkLength(apps: seq<App>, force: bool, s: Loop) returns (n: nat)
    requires Sane(|apps|, s) && s.Going? && (force || AnyPlugged(apps))
    ensures 0 < n <= |apps| && !Hops(apps, force, s, n).Going?
    ensures forall k: nat :: k < n ==> Hops(apps, force, s, k).Going?
    ensures Hops(apps, force, s, n).Refused? <==> !Moves(|apps|, s)
    ensures Moves(|apps|, s) && !force ==> SelectsAt(apps, s, n - 1)
  {
    assert Hops(apps, force, s, 0) == s;
    if force || !Moves(|apps|, s) {
      n := 1;
    } else {
      SelectsFirst(apps, s);
      var k: nat :| k < |apps| && SelectsAt(apps, s, k);
      n := k + 1;
      forall j: nat | j < n ensures Hops(apps, force, s, j).Going? {
        MissesGo(apps, s, j);
      }
    }
  }

  ghost predicate EndsAt(apps: seq<App>, force: bool, s: Loop, k: nat)
    requires Sane(|apps|, s)
  {
    !Hops(apps, force, s, k).Going?
  }

  /** The walk ends exactly when it is forced, or stuck on one application, or has something to find. */
  lemma EndsIff(apps: seq<App>, force: bool, s: Loop)
    requires Sane(|apps|, s) && s.Going?
    ensures (exists k: nat :: EndsAt(apps, force, s, k))
      <==> force || |apps| == 1 || AnyPlugged(apps) || !Moves(|apps|, s)
  {
    hide Ahead;
    if force || !Moves(|apps|, s) {
      HopsNext(apps, force, s, 0);
      assert EndsAt(apps, force, s, 1);
    } else if AnyPlugged(apps) {
      SelectsFirst(apps, s);
      var k: nat :| k < |apps| && SelectsAt(apps, s, k);
      assert EndsAt(apps, force, s, k + 1);
    } else if |apps| == 1 {
      NonePlugged(apps, s, 1);
      MissesGo(apps, s, 1);
      assert EndsAt(apps, force, s, 2);
    } else {
      forall k: nat ensures !EndsAt(apps, force, s, k) {
        NonePlugged(apps, s, k);
        MissesGo(apps, s, k);
      }
    }
  }

  /** The walk chooses `cur` within `app_num` hops, coming from `last`; unforced it is the first plugged one. */
  ghost predicate WalksTo(apps: seq<App>, force: bool, s: Loop, cur: nat, last: nat)
    requires Sane(|apps|, s) && s.Going?
  {
    exists hops: nat :: 0 < hops <= |apps| && WalksIn(apps, force, s, cur, last, hops)
  }

  ghost predicate WalksIn(apps: seq<App>, force: bool, s: Loop, cur: nat, last: nat, hops: nat)
    requires Sane(|apps|, s) && s.Going? && hops > 0
  {
    Hops(apps, force, s, hops) == Chosen(cur, last) && (!force ==> SelectsAt(apps, s, hops - 1))
  }

  // ----- the switcher, updated in place -----

  datatype Outcome = Kept | Refusal | Activated(index: nat)

  class Switcher {
    const list: array<App>
    var locked: bv8
    var forceLocked: bv8
    var cur: nat
    var last: nat
    var activedNum: nat

    ghost predicate Valid()
      reads this, list
    {
      && 0 < list.Length <= 25
      && activedNum == Count(list[..])
      && (cur < list.Length || cur == NOWHERE)
      && (last < list.Length || last == NOWHERE)
    }

    constructor (names: seq<string>)
      requires 0 < |names| <= 25
      ensures Valid() && fresh(list) && list.Length == |names|
      ensures cur == last == NOWHERE && locked == forceLocked == 0
      ensures forall i :: 0 <= i < |names| ==> list[i] == App(names[i], false)
    {
      list := new App[|names|](i requires 0 <= i < |names| => App(names[i], false));
      cur, last, activedNum, locked, forceLocked := NOWHERE, NOWHERE, 0, 0, 0;
      new;
      CountZero(list[..]);
    }

    /** Plug in or out every application whose name begins with `name`. */
    method SetPlugged(name: string, on: bool)
      requires Valid()
      modifies list, `activedNum
      ensures Valid() && list[..] == Plug(old(list[..]), name, on)
    {
      hide Count, Plug, Matches;
      ghost var apps := list[..];
      for i := 0 to list.Length
        invariant activedNum == Count(list[..])
        invariant forall j :: 0 <= j < list.Length ==> list[j] == if j < i then Plug(apps, name, on)[j] else apps[j]
      {
        if Matches(list[i], name) && list[i].plugged != on {
          CountUpdate(list[..], i, on);
          ghost var b := list[..];
          list[i] := list[i].(plugged := on);
          assert list[..] == b[i := b[i].(plugged := on)];
          activedNum := if on then activedNum + 1 else activedNum - 1;
        }
      }
    }

    /** The last application that may be entered under `name`. */
    method FindByName(name: string, force: bool) returns (found: bool, target: nat)
      requires Valid()
      ensures found ==> target < list.Length && IsLastMatch(list[..], name, force, target)
      ensures !found ==> forall i :: 0 <= i < list.Length ==> !Enterable(list[i], name, force)
    {
      found, target := false, 0;
      for i := 0 to list.Length
        invariant found ==> target < i && Enterable(list[target], name, force)
        invariant forall j :: (if found then target + 1 else 0) <= j < i ==> !Enterable(list[j], name, force)
      {
        if Matches(list[i], name) && (list[i].plugged || force) {
          found, target := true, i;
        }
      }
    }

    /** app_switch_lock and app_switch_unlock. */
    method SetLock(op: LockOp)
      requires Valid()
      modifies `locked
      ensures Valid() && locked == LockStep(old(locked), op)
    {
      if op.Hold? { locked := locked | op.reason; } else { locked := locked & !op.reason; }
    }

    /** app_switch_force_lock and app_switch_force_unlock. */
    method SetForceLock(op: LockOp)
      requires Valid()
      modifies `forceLocked
      ensures Valid() && forceLocked == LockStep(old(forceLocked), op)
    {
      if op.Hold? { forceLocked := forceLocked | op.reason; } else { forceLocked := forceLocked & !op.reason; }
    }

    /** The guards before the walk; `here` says that the wanted application is the running one. */
    method Guarded(here: bool, force: bool) returns (held: bool)
      requires Valid()
      ensures held <==> Held(here, force)
    {
      if forceLocked != 0 { return true; }
      if here { return true; }
      if locked != 0 && !force { return true; }
      if cur != NOWHERE && list[cur].plugged { CountOne(list[..], cur); }
      return activedNum <= 1 && cur != NOWHERE && list[cur].plugged && !force;
    }

    /** Whether a call changes nothing: a lock, the wanted application running, or nothing else to go to. */
    ghost predicate Held(here: bool, force: bool)
      requires Valid()
      reads this, list
    {
      || forceLocked != 0
      || here
      || (locked != 0 && !force)
      || (!force && OnlyPlugged(list[..], cur))
    }

    method SwitchToName(name: string, force: bool, here: bool) returns (out: Outcome)
      requires Valid()
      modifies `cur, `last
      ensures Valid()
      ensures out.Activated? ==>
        && cur == out.index != old(cur) && last == old(cur)
        && cur < list.Length && IsLastMatch(list[..], name, force, cur)
      ensures out == Refusal ==>
        || (forall i :: 0 <= i < list.Length ==> !Enterable(list[i], name, force))
        || (cur < list.Length && IsLastMatch(list[..], name, force, cur))
      ensures !out.Activated? ==> cur == old(cur) && last == old(last)
      ensures out == Kept <==> old(Held(here, force))
    {
      var held := Guarded(here, force);
      if held { return Kept; }
      var found, target := FindByName(name, force);
      if !found || target == cur { return Refusal; }
      last, cur := cur, target;
      return Activated(cur);
    }

    /** The walk itself, from the label to the end of the call. */
    method Walk(mode: Mode, force: bool) returns (out: Outcome)
      requires Valid() && Sane(list.Length, Going(mode, cur, last))
      requires force || AnyPlugged(list[..])
      modifies `cur, `last
      ensures Valid() && out != Kept
      ensures var s := Going(mode, old(cur), old(last));
        && (out == Refusal <==> !Moves(list.Length, s))
        && (out == Refusal ==> cur == old(cur) && last == old(last))
        && (out.Activated? ==> out.index == cur && WalksTo(list[..], force, s, cur, last))
    {
      hide Hops, Ahead, Count;
      ghost var apps, s := list[..], Going(mode, cur, last);
      ghost var total := WalkLength(apps, force, s);
      HopsNext(apps, force, s, 0);
      ghost var k := 0;
      var dir := mode;
      while true
        invariant k < total <= list.Length && Valid()
        invariant Hops(apps, force, s, k) == Going(dir, cur, last)
        invariant k == 0 ==> dir == mode && cur == old(cur) && last == old(last)
        decreases total - k
      {
        var target := Start(dir, list.Length, cur, last);
        HopsNext(apps, force, s, k);
        k := k + 1;
        if target == cur {
          return Refusal;
        }
        last, cur := cur, target;
        if list[cur].plugged || force {
          assert WalksIn(apps, force, s, cur, last, k);
          return Activated(cur);
        }
        if dir == Last { dir := Prev; }
      }
    }

    /**
      app_switch without a name.  Without force something must be plugged in, and
      going back to the last application needs one (EndsIff says why).
    */
    method SwitchMode(mode: Mode, force: bool) returns (out: Outcome)
      requires Valid()
      requires force || AnyPlugged(list[..])
      requires mode == Last ==> last < list.Length
      modifies `cur, `last
      ensures Valid()
      ensures out == Kept <==> old(Held(false, force))
      ensures !out.Activated? ==> cur == old(cur) && last == old(last)
      ensures var s := Going(mode, old(cur), old(last));
        && (out == Refusal <==> !old(Held(false, force)) && !Moves(list.Length, s))
        && (out.Activated? ==> out.index == cur && WalksTo(list[..], force, s, cur, last))
    {
      var held := Guarded(false, force);
      if held { return Kept; }
      out := Walk(mode, force);
    }
  }
}
