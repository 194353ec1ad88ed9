/**
  Playback-rate control of a pair of earbuds.  Each bud plays at one of eight
  rate levels.  The bud in the master role watches its buffer and asks for level
  changes, which both buds carry out; in between a bud makes short excursions
  to a neighbouring level to line its playback up with the other one.
*/
module TwsAps {
  import opened Basics

  const LEVEL_1 := 0
  const LEVEL_8 := 7
  const NO_CHANGE := 0xff

  function Abs(x: int): nat { if x < 0 then -x else x }

  // ----- the rate monitor -----

  /** Default level and buffer target; the formats that use a pair start at level 4 or 5. */
  datatype Config = Config(base: nat, target: int, rate44: bool)
  {
    predicate Ok() { 2 <= base <= 5 }
  }

  function Low(tws: bool): nat { if tws then LEVEL_1 + 1 else LEVEL_1 }
  function High(tws: bool): nat { if tws then LEVEL_8 - 1 else LEVEL_8 }

  /** Close to the target and next to the default level, only that neighbourhood is used. */
  predicate Trimmed(cfg: Config, cur: int, pcm: int) {
    Abs(pcm - cfg.target) <= 1000 && cfg.base - 1 <= cur <= cfg.base + 1
  }

  function MinLevel(cfg: Config, cur: int, pcm: int, tws: bool): int {
    if Trimmed(cfg, cur, pcm) then cfg.base - 1 else Low(tws)
  }

  function MaxLevel(cfg: Config, cur: int, pcm: int, tws: bool): int {
    if Trimmed(cfg, cur, pcm) then cfg.base + 1 else High(tws)
  }

  /** The saturating history: two looks in the same direction. */
  function Count(cfg: Config, check: int, pcm: int): int {
    if pcm > cfg.target && check < 2 then check + 1
    else if pcm < cfg.target && check > -2 then check - 1
    else check
  }

  function Down(cur: int): int { if cur > 0 then cur - 1 else cur }

  function Toward(cfg: Config, cur: int, pcm: int): int {
    if pcm > cfg.target then cur + 1 else if pcm < cfg.target then Down(cur) else cur
  }

  /** The level aimed at before it is clamped; `elapsed` is the 32-bit time since the last change. */
  function Aim(cfg: Config, cur: int, pcm: int, tws: bool, check: int, elapsed: nat): int {
    if elapsed < 220 then cur
    else if check >= 2 then cur + 1
    else if check <= -2 then Down(cur)
    else
      var adj := Toward(cfg, cur, pcm);
      var lo, hi := MinLevel(cfg, cur, pcm, tws), MaxLevel(cfg, cur, pcm, tws);
      if elapsed < 600 && (Trimmed(cfg, cur, pcm) || !((cur == hi && adj < hi) || (cur == lo && adj > lo))) then cur
      else adj
  }

  function Clamp(x: int, lo: int, hi: int): int {
    var y := if x > hi then hi else x;
    if y < lo then lo else y
  }

  /** _monitor_aout_rate: the level to ask for, if any. */
  function Monitor(cfg: Config, cur: int, pcm: int, tws: bool, check: int, elapsed: nat): Option<int> {
    var lo, hi := MinLevel(cfg, cur, pcm, tws), MaxLevel(cfg, cur, pcm, tws);
    var adj := Clamp(Aim(cfg, cur, pcm, tws, Count(cfg, check, pcm), elapsed), lo, hi);
    if adj == cur then None
    else if (cur < cfg.base && adj > cur) || (cur > cfg.base && adj < cur) then Some(cfg.base)
    else Some(adj)
  }

  /** In a pair every level asked for leaves a neighbour on both sides. */
  lemma RequestsLeaveRoom(cfg: Config, cur: int, pcm: int, check: int, elapsed: nat)
    requires cfg.Ok() && Monitor(cfg, cur, pcm, true, check, elapsed).Some?
    ensures LEVEL_1 < Monitor(cfg, cur, pcm, true, check, elapsed).value < LEVEL_8
  {
  }

  /** A change stops at the default level; it never goes past it. */
  lemma NeverAcrossDefault(cfg: Config, cur: int, pcm: int, tws: bool, check: int, elapsed: nat)
    requires cfg.Ok() && Monitor(cfg, cur, pcm, tws, check, elapsed).Some?
    ensures var r := Monitor(cfg, cur, pcm, tws, check, elapsed).value;
      (cur < cfg.base ==> r <= cfg.base) && (cur > cfg.base ==> r >= cfg.base) && r != cur
  {
  }

  predicate AgainstSign(cfg: Config, cur: int, pcm: int, r: Option<int>) {
    r.Some? && ((r.value > cur && pcm < cfg.target) || (r.value < cur && pcm > cfg.target))
  }

  /**
    A change against the sign of (buffered time - target) happens exactly when
    the current level lies outside the monitor's bounds on that side; whatever
    the history says, it never happens from within.
  */
  lemma AgainstSignIff(cfg: Config, cur: int, pcm: int, tws: bool, check: int, elapsed: nat)
    requires cfg.Ok() && -2 <= check <= 2
    ensures AgainstSign(cfg, cur, pcm, Monitor(cfg, cur, pcm, tws, check, elapsed))
      <==> (cur > (if tws then 6 else 7) && pcm > cfg.target) || (cur < (if tws then 1 else 0) && pcm < cfg.target)
  {
  }

  /** Where the buffer, or two looks in the same direction, want the rate to go. */
  function Direction(cfg: Config, pcm: int, count: int): int {
    if count >= 2 then 1 else if count <= -2 then -1
    else if pcm > cfg.target then 1 else if pcm < cfg.target then -1 else 0
  }

  /**
    Within the bounds, which leave a level at both ends in a pair and shrink to
    the default's neighbours near the target: a change is asked for exactly if there is a direction and
    room for it, and the wait is over.  That is 220 ms for a repeated direction
    or a way back from a bound, and 600 ms for anything else.
  */
  lemma ChangeIff(cfg: Config, cur: int, pcm: int, tws: bool, check: int, elapsed: nat)
    requires cfg.Ok() && if tws then 1 <= cur <= 6 else 0 <= cur <= 7
    ensures
      var n, r := Count(cfg, check, pcm), Monitor(cfg, cur, pcm, tws, check, elapsed);
      var d, near := Direction(cfg, pcm, n), cfg.target - 1000 <= pcm <= cfg.target + 1000 && Abs(cur - cfg.base) <= 1;
      var lo := if near then cfg.base - 1 else if tws then 1 else 0;
      var hi := if near then cfg.base + 1 else if tws then 6 else 7;
      var inward := !near && ((cur == hi && d < 0) || (cur == lo && d > 0));
      && (r.Some? <==> d != 0 && lo <= cur + d <= hi && elapsed >= if n >= 2 || n <= -2 || inward then 220 else 600)
      && (r.Some? ==> r.value == if (cur < cfg.base && d > 0) || (cur > cfg.base && d < 0) then cfg.base else cur + d)
  {
  }

  // ----- one bud -----

  /**
    What a bud keeps.  `adjust` and `lastCheck` are the times of the last change
    and the last look, which the code holds modulo 2^32; `seen` records the
    buffered times since the last look; `queue` holds level requests on their way
    to the bud; `timer` is the length of its excursion.
  */
  datatype Bud = Bud(
    current: int, dest: int, aligning: bool, timer: int,
    check: int, adjust: nat, lastCheck: nat, maxLatency: int, seen: seq<int>, queue: seq<int>)

  function StopAligning(b: Bud): Bud {
    if b.aligning then b.(current := b.dest, aligning := false) else b
  }

  /** _set_base_aps_level. */
  function SetBase(cfg: Config, b: Bud, level: int): Bud {
    if b.dest == level then b
    else
      var l := if level == NO_CHANGE then cfg.base else level;
      StopAligning(b.(current := l, dest := l))
  }

  /** For each level the time to make up a millisecond by playing one level slower, and one level faster. */
  const STEPS_44 := [
    (841, 841), (841, 1606), (1606, 545), (545, 2156), (2156, 1913), (1913, 2588), (2588, 1134), (1134, 1134)]
  const STEPS_48 := [
    (819, 819), (819, 2539), (2539, 2448), (2448, 2364), (2364, 2285), (2285, 3310), (3310, 778), (778, 778)]

  function StepTime(cfg: Config, l: int, fast: bool): int {
    if 0 <= l < 8 then
      var step := if cfg.rate44 then STEPS_44[l] else STEPS_48[l];
      if fast then step.1 else step.0
    else 0
  }

  /** _notify_time_diff: an excursion of one level, for as long as it takes to make up `diff` microseconds. */
  function NotifyDiff(cfg: Config, b: Bud, diff: int): Bud {
    if Abs(diff) > 3000 then b
    else
      var b1 := StopAligning(b);
      if Abs(diff) < 3 then b1
      else
        var fast := diff < 0;
        b1.(current := (if fast then b1.dest + 1 else b1.dest - 1) % 256, aligning := true,
            timer := StepTime(cfg, b1.dest, fast) * Abs(diff) / 1000)
  }

  /** A request for the base level a bud has already changes nothing; any other ends its excursion at the new level. */
  lemma SetBaseExact(cfg: Config, b: Bud, level: int)
    ensures var b', l := SetBase(cfg, b, level), if level == 0xff then cfg.base else level;
      if b.dest == level then b' == b
      else b' == b.(current := l, dest := l, aligning := false)
  {
  }

  /**
    An excursion is one level up if the bud is behind, one down if it is ahead,
    and takes as long from a level up as from the next one down.
  */
  lemma ExcursionSymmetric(cfg: Config, b: Bud, diff: int)
    requires 0 <= b.dest < 7 && 3 <= diff <= 3000
    ensures var up, down := NotifyDiff(cfg, b, -diff), NotifyDiff(cfg, b.(dest := b.dest + 1), diff);
      && up.aligning && down.aligning && up.current == b.dest + 1 && down.current == b.dest
      && up.timer == down.timer
  {
  }

  /** Differences below three microseconds end an excursion; those above three milliseconds are left to a restart. */
  lemma SmallAndLarge(cfg: Config, b: Bud, diff: int)
    ensures 3000 < Abs(diff) ==> NotifyDiff(cfg, b, diff) == b
    ensures Abs(diff) < 3 ==>
      NotifyDiff(cfg, b, diff) == b.(current := if b.aligning then b.dest else b.current, aligning := false)
  {
  }

  /** A millisecond takes 0.5 to 3.4 seconds to make up, by level and sample rate. */
  lemma OneMillisecond(cfg: Config, b: Bud)
    requires 0 <= b.dest < 8
    ensures NotifyDiff(cfg, b, 1000).timer
         == (if cfg.rate44 then [841, 841, 1606, 545, 2156, 1913, 2588, 1134]
             else [819, 819, 2539, 2448, 2364, 2285, 3310, 778])[b.dest]
  {
  }

  /** Exactly when an excursion stays within the eight levels. */
  lemma ExcursionInRange(cfg: Config, b: Bud, diff: int)
    requires LEVEL_1 <= b.dest <= LEVEL_8 && 3 <= Abs(diff) <= 3000
    ensures LEVEL_1 <= NotifyDiff(cfg, b, diff).current <= LEVEL_8
      <==> if diff < 0 then b.dest != LEVEL_8 else b.dest != LEVEL_1
    ensures 0 < diff && b.dest == LEVEL_1 ==> NotifyDiff(cfg, b, diff).current == 255
  {
  }

  /** From an inner level an excursion lasts between 1 and 9930 milliseconds. */
  lemma ExcursionTime(cfg: Config, b: Bud, diff: int)
    requires LEVEL_1 < b.dest < LEVEL_8 && 3 <= Abs(diff) <= 3000
    ensures 1 <= NotifyDiff(cfg, b, diff).timer <= 9930
  {
    var t, a := StepTime(cfg, b.dest, diff < 0), Abs(diff);
    assert 545 <= t <= 3310;
    assert 545 * 3 <= t * a <= 3310 * 3000 by {
      assert t * a >= 545 * a;
      assert t * a <= 3310 * a;
    }
  }

  // ----- the pair -----

  datatype Role = Alone | Master | Slave

  /**
    A level request: when, by which bud, in a pair or not, from and to which level,
    the buffered time it was judged by and the ones seen since the look before.
  */
  datatype Change = Change(t: nat, who: nat, tws: bool, from: int, to: int, pcm: int, seen: seq<int>)

  datatype Pair = Pair(now: nat, buds: seq<Bud>, changes: seq<Change>)

  datatype Event =
    | Pass(ms: nat)
    | Look(i: nat, pcm: int, role: Role)
    | Deliver(i: nat)
    | Default(i: nat)
    | Diff(i: nat, us: int)
    | Timer(i: nat)
    | Stream(i: nat)

  /** The difference of two 32-bit times. */
  function Elapsed(now: nat, then_: nat): nat { (now % WRAP - then_ % WRAP) % WRAP }

  lemma ElapsedSound(now: nat, then_: nat)
    requires then_ <= now
    ensures Elapsed(now, then_) <= now - then_
  {
    var d := now - then_;
    var q, r := d / WRAP, d % WRAP;
    var qn, qt := now / WRAP, then_ / WRAP;
    assert now % WRAP - then_ % WRAP == r + WRAP * (q - qn + qt);
    assert -WRAP < r + WRAP * (q - qn + qt) < WRAP;
  }

  /** The highest buffered time since the last look. */
  function Noted(b: Bud, pcm: int): Bud {
    b.(maxLatency := if b.maxLatency < pcm then pcm else b.maxLatency, seen := b.seen + [pcm])
  }

  function Looked(b: Bud, now: nat): Bud { b.(lastCheck := now, maxLatency := 0, seen := []) }

  /** A level request goes to every bud. */
  function Broadcast(buds: seq<Bud>, level: int): (r: seq<Bud>)
    ensures |r| == |buds|
    ensures forall k :: 0 <= k < |buds| ==> r[k] == buds[k].(queue := buds[k].queue + [level])
  {
    if buds == [] then []
    else [buds[0].(queue := buds[0].queue + [level])] + Broadcast(buds[1..], level)
  }

  function Ask(cfg: Config, now: nat, b: Bud, tws: bool): Option<int> {
    Monitor(cfg, b.current, b.maxLatency, tws, b.check, Elapsed(now, b.adjust))
  }

  /** audio_aps_monitor_master: every 300 ms the highest buffered time seen is judged; the bud and its request. */
  function LookOne(cfg: Config, now: nat, b0: Bud, pcm: int, role: Role): (Bud, Option<int>) {
    var b := Noted(b0, pcm);
    var b1 := Looked(b, now);
    if Elapsed(now, b.lastCheck) < 300 then (b, None)
    else if role == Slave then (if Elapsed(now, b.adjust) >= 3000 then b1.(adjust := now) else b1, None)
    else
      var r := Ask(cfg, now, b, role == Master);
      (if r.Some? then b1.(check := 0, adjust := now) else b1.(check := Count(cfg, b.check, b.maxLatency)), r)
  }

  function LookAt(cfg: Config, p: Pair, i: nat, pcm: int, role: Role): Pair
    requires i < |p.buds|
  {
    var (b, r) := LookOne(cfg, p.now, p.buds[i], pcm, role);
    match r
    case None => p.(buds := p.buds[i := b])
    case Some(l) =>
      var n := Noted(p.buds[i], pcm);
      p.(buds := Broadcast(p.buds[i := b], l),
         changes := p.changes + [Change(p.now, i, role == Master, b.current, l, n.maxLatency, n.seen)])
  }

  /** What happens to one bud alone. */
  function Own(cfg: Config, now: nat, b: Bud, e: Event): Bud {
    match e
    case Deliver(_) => if b.queue == [] then b else SetBase(cfg, b, b.queue[0]).(queue := b.queue[1..])
    case Default(_) => SetBase(cfg, b, NO_CHANGE)
    case Diff(_, us) => NotifyDiff(cfg, b, us)
    case Timer(_) => StopAligning(b)
    case Stream(_) => b.(adjust := now, lastCheck := now, check := 0)
    case _ => b
  }

  function Step(cfg: Config, p: Pair, e: Event): Pair {
    match e
    case Pass(ms) => p.(now := p.now + ms)
    case Look(i, pcm, role) => if i < |p.buds| then LookAt(cfg, p, i, pcm, role) else p
    case _ => if e.i < |p.buds| then p.(buds := p.buds[e.i := Own(cfg, p.now, p.buds[e.i], e)]) else p
  }

  function Run(cfg: Config, p: Pair, es: seq<Event>): Pair
    decreases |es|
  {
    if es == [] then p else Run(cfg, Step(cfg, p, es[0]), es[1..])
  }

  predicate InPair(e: Event) { e.Look? ==> e.role != Alone }

  // ----- alignment over whole runs -----

  predicate Inner(l: int) { LEVEL_1 < l < LEVEL_8 }

  /** At the base level, or on an excursion one level away from it. */
  ghost predicate BudOk(b: Bud) {
    && Inner(b.dest)
    && (if b.aligning then Abs(b.current - b.dest) == 1 && 1 <= b.timer <= 9930 else b.current == b.dest)
    && forall k :: 0 <= k < |b.queue| ==> Inner(b.queue[k])
  }

  ghost predicate PairOk(p: Pair) { forall i :: 0 <= i < |p.buds| ==> BudOk(p.buds[i]) }

  lemma OwnKeeps(cfg: Config, now: nat, b: Bud, e: Event)
    requires cfg.Ok() && BudOk(b)
    ensures BudOk(Own(cfg, now, b, e))
  {
    hide StepTime;
    if e.Diff? && 3 <= Abs(e.us) <= 3000 {
      ExcursionTime(cfg, StopAligning(b), e.us);
    }
  }

  lemma BroadcastKeeps(buds: seq<Bud>, level: int)
    requires Inner(level) && forall i :: 0 <= i < |buds| ==> BudOk(buds[i])
    ensures forall i :: 0 <= i < |buds| ==> BudOk(Broadcast(buds, level)[i])
  {
  }

  lemma LookKeeps(cfg: Config, p: Pair, i: nat, pcm: int, role: Role)
    requires cfg.Ok() && PairOk(p) && i < |p.buds| && role != Alone
    ensures PairOk(LookAt(cfg, p, i, pcm, role))
  {
    hide Monitor, Elapsed;
    var b := Noted(p.buds[i], pcm);
    assert BudOk(p.buds[i]);
    var r := Ask(cfg, p.now, b, true);
    if r.Some? {
      RequestsLeaveRoom(cfg, b.current, b.maxLatency, b.check, Elapsed(p.now, b.adjust));
      BroadcastKeeps(p.buds[i := Looked(b, p.now).(check := 0, adjust := p.now)], r.value);
    }
  }

  lemma StepKeeps(cfg: Config, p: Pair, e: Event)
    requires cfg.Ok() && PairOk(p) && InPair(e)
    ensures PairOk(Step(cfg, p, e))
  {
    hide LookAt, Own, BudOk;
    match e {
      case Pass(_) =>
      case Look(i, pcm, role) => if i < |p.buds| { LookKeeps(cfg, p, i, pcm, role); }
      case _ => if e.i < |p.buds| { OwnKeeps(cfg, p.now, p.buds[e.i], e); }
    }
  }

  /**
    Alignment stays in range: in every run of a pair, whatever the measured
    differences, the role changes and the order of deliveries, each bud is at its
    base level or on an excursion one level away; no bud leaves the eight levels,
    every requested level has a neighbour on both sides, and every excursion
    timer lasts 1 to 9930 ms.
  */
  lemma {:induction false} RunKeeps(cfg: Config, p: Pair, es: seq<Event>)
    requires cfg.Ok() && PairOk(p) && forall k :: 0 <= k < |es| ==> InPair(es[k])
    ensures PairOk(Run(cfg, p, es))
    decreases |es|
  {
    hide Step, PairOk;
    if es != [] {
      StepKeeps(cfg, p, es[0]);
      RunKeeps(cfg, Step(cfg, p, es[0]), es[1..]);
    }
  }

  // ----- both buds end at the same level -----

  /** The levels asked for, in order. */
  function Levels(cs: seq<Change>): (ls: seq<int>)
    ensures |ls| == |cs|
  {
    if cs == [] then [] else Levels(cs[..|cs| - 1]) + [cs[|cs| - 1].to]
  }

  function Latest(start: int, ls: seq<int>): int { if ls == [] then start else ls[|ls| - 1] }

  /** The bud has carried out the requests `ls` up to the ones still queued. */
  ghost predicate Follows(b: Bud, start: int, ls: seq<int>) {
    && |b.queue| <= |ls| && b.queue == ls[|ls| - |b.queue|..]
    && b.dest == Latest(start, ls[..|ls| - |b.queue|])
  }

  ghost predicate AllFollow(p: Pair, start: int) {
    forall i :: 0 <= i < |p.buds| ==> Follows(p.buds[i], start, Levels(p.changes))
  }

  lemma OwnFollows(cfg: Config, now: nat, b: Bud, e: Event, start: int, ls: seq<int>)
    requires BudOk(b) && Follows(b, start, ls) && !e.Default?
    ensures Follows(Own(cfg, now, b, e), start, ls)
  {
    hide StepTime;
    if e.Deliver? && b.queue != [] {
      var n := |ls| - |b.queue|;
      assert b.queue[0] == ls[n] && b.queue[1..] == ls[n + 1..];
    }
  }

  lemma QueuedFollows(b: Bud, level: int, start: int, ls: seq<int>)
    requires Follows(b, start, ls)
    ensures Follows(b.(queue := b.queue + [level]), start, ls + [level])
  {
    var n := |ls| - |b.queue|;
    assert (ls + [level])[n..] == ls[n..] + [level] && (ls + [level])[..n] == ls[..n];
  }

  lemma LookFollows(cfg: Config, p: Pair, i: nat, pcm: int, role: Role, start: int)
    requires i < |p.buds| && AllFollow(p, start)
    ensures AllFollow(LookAt(cfg, p, i, pcm, role), start)
  {
    hide Monitor, Elapsed;
    var ls, q := Levels(p.changes), LookAt(cfg, p, i, pcm, role);
    var (b, r) := LookOne(cfg, p.now, p.buds[i], pcm, role);
    var buds := p.buds[i := b];
    assert b.queue == p.buds[i].queue && b.dest == p.buds[i].dest;
    forall k | 0 <= k < |buds| ensures Follows(buds[k], start, ls) {
      assert Follows(p.buds[k], start, ls);
    }
    if r.Some? {
      assert q.changes[..|p.changes|] == p.changes;
      assert Levels(q.changes) == ls + [r.value];
      forall k | 0 <= k < |q.buds| ensures Follows(q.buds[k], start, ls + [r.value]) {
        QueuedFollows(buds[k], r.value, start, ls);
      }
    }
  }

  lemma StepFollows(cfg: Config, p: Pair, e: Event, start: int)
    requires PairOk(p) && AllFollow(p, start) && !e.Default?
    ensures AllFollow(Step(cfg, p, e), start)
  {
    hide LookAt, Own, BudOk, Follows;
    if e.Pass? {
    } else if e.Look? {
      if e.i < |p.buds| { LookFollows(cfg, p, e.i, e.pcm, e.role, start); }
    } else if e.i < |p.buds| {
      OwnFollows(cfg, p.now, p.buds[e.i], e, start, Levels(p.changes));
    }
  }

  lemma {:induction false} RunFollows(cfg: Config, p: Pair, es: seq<Event>, start: int)
    requires cfg.Ok() && PairOk(p) && AllFollow(p, start)
    requires forall k :: 0 <= k < |es| ==> InPair(es[k]) && !es[k].Default?
    ensures AllFollow(Run(cfg, p, es), start)
    decreases |es|
  {
    hide Step, PairOk, AllFollow;
    if es != [] {
      StepKeeps(cfg, p, es[0]);
      StepFollows(cfg, p, es[0], start);
      RunFollows(cfg, Step(cfg, p, es[0]), es[1..], start);
    }
  }

  /**
    The pair agrees: whoever is master when, and however deliveries, excursions
    and timers interleave, two buds with no request on its way to them have the
    same base level, the one asked for last.
  */
  lemma PairAgrees(cfg: Config, p: Pair, es: seq<Event>, start: int, i: nat, j: nat)
    requires cfg.Ok() && PairOk(p) && p.changes == []
    requires forall k :: 0 <= k < |p.buds| ==> p.buds[k].dest == start && p.buds[k].queue == []
    requires forall k :: 0 <= k < |es| ==> InPair(es[k]) && !es[k].Default?
    ensures var q := Run(cfg, p, es);
      i < |q.buds| && j < |q.buds| && q.buds[i].queue == [] && q.buds[j].queue == []
      ==> q.buds[i].dest == q.buds[j].dest == Latest(start, Levels(q.changes))
  {
    RunFollows(cfg, p, es, start);
    var q := Run(cfg, p, es);
    var ls := Levels(q.changes);
    assert ls[..|ls|] == ls;
  }

  // ----- the changes over whole runs -----

  /** The highest of the values `seen` and zero. */
  predicate Peak(m: int, seen: seq<int>) {
    0 <= m && (forall k :: 0 <= k < |seen| ==> seen[k] <= m) && (m == 0 || m in seen)
  }

  lemma NotedPeak(b: Bud, pcm: int)
    requires Peak(b.maxLatency, b.seen)
    ensures Peak(Noted(b, pcm).maxLatency, Noted(b, pcm).seen)
  {
    assert pcm == (b.seen + [pcm])[|b.seen|];
    if b.maxLatency in b.seen {
      var k :| 0 <= k < |b.seen| && b.seen[k] == b.maxLatency;
      assert (b.seen + [pcm])[k] == b.maxLatency;
    }
  }

  /** The last change came with a look: both stamps are set together, or only the look's. */
  predicate CheckOk(b: Bud, now: nat) {
    -2 <= b.check <= 2 && b.adjust <= b.lastCheck <= now && Peak(b.maxLatency, b.seen)
  }

  /** One change: judged by the highest time seen, never past the default, against the target only from outside. */
  predicate ChangeOk(cfg: Config, c: Change) {
    && (AgainstSign(cfg, c.from, c.pcm, Some(c.to))
        <==> (c.from > (if c.tws then 6 else 7) && c.pcm > cfg.target)
             || (c.from < (if c.tws then 1 else 0) && c.pcm < cfg.target))
    && (c.from < cfg.base ==> c.to <= cfg.base)
    && (c.from > cfg.base ==> c.to >= cfg.base)
    && c.from != c.to && Peak(c.pcm, c.seen)
  }

  /** Two changes of one bud are a look apart. */
  predicate Apart(c: Change, d: Change) { c.who == d.who ==> c.t + 300 <= d.t }

  ghost predicate ChangesOk(cfg: Config, p: Pair) {
    && (forall i :: 0 <= i < |p.buds| ==> CheckOk(p.buds[i], p.now))
    && (forall k :: 0 <= k < |p.changes| ==> ChangeOk(cfg, p.changes[k]))
    && (forall k :: 0 <= k < |p.changes| ==> Dated(p, p.changes[k]))
    && (forall k, l :: 0 <= k < l < |p.changes| ==> Apart(p.changes[k], p.changes[l]))
  }

  predicate Dated(p: Pair, c: Change) { c.who < |p.buds| && c.t <= p.buds[c.who].lastCheck }

  lemma AskSound(cfg: Config, now: nat, b: Bud, tws: bool, who: nat)
    requires cfg.Ok() && CheckOk(b, now) && Ask(cfg, now, b, tws).Some?
    ensures ChangeOk(cfg, Change(now, who, tws, b.current, Ask(cfg, now, b, tws).value, b.maxLatency, b.seen))
  {
    hide Monitor, Elapsed;
    var el := Elapsed(now, b.adjust);
    AgainstSignIff(cfg, b.current, b.maxLatency, tws, b.check, el);
    NeverAcrossDefault(cfg, b.current, b.maxLatency, tws, b.check, el);
  }

  /** The buds' stamps only move forward, and at most one sound change is added. */
  ghost predicate Grown(cfg: Config, p: Pair, q: Pair) {
    && |q.buds| == |p.buds|
    && (forall i :: 0 <= i < |q.buds| ==> CheckOk(q.buds[i], q.now) && p.buds[i].lastCheck <= q.buds[i].lastCheck)
    && (q.changes == p.changes || exists c :: Added(cfg, p, q, c))
  }

  ghost predicate Added(cfg: Config, p: Pair, q: Pair, c: Change)
    requires |q.buds| == |p.buds|
  {
    && q.changes == p.changes + [c]
    && ChangeOk(cfg, c) && Dated(q, c)
    && p.buds[c.who].lastCheck + 300 <= c.t
  }

  lemma GrownSound(cfg: Config, p: Pair, q: Pair)
    requires ChangesOk(cfg, p) && Grown(cfg, p, q)
    ensures ChangesOk(cfg, q)
  {
    hide ChangeOk, CheckOk;
    forall k | 0 <= k < |p.changes| ensures Dated(q, p.changes[k]) {
      assert Dated(p, p.changes[k]);
    }
  }

  lemma LookSound(cfg: Config, p: Pair, i: nat, pcm: int, role: Role)
    requires cfg.Ok() && ChangesOk(cfg, p) && i < |p.buds|
    ensures ChangesOk(cfg, LookAt(cfg, p, i, pcm, role))
  {
    assert Peak(0, []);
    hide Monitor, Elapsed, ChangeOk, Ask, Apart, Peak;
    var b := Noted(p.buds[i], pcm);
    assert CheckOk(p.buds[i], p.now);
    NotedPeak(p.buds[i], pcm);
    ElapsedSound(p.now, b.lastCheck);
    var r := Ask(cfg, p.now, b, role == Master);
    var q := LookAt(cfg, p, i, pcm, role);
    if q.changes != p.changes {
      AskSound(cfg, p.now, b, role == Master, i);
      assert Added(cfg, p, q, Change(p.now, i, role == Master, b.current, r.value, b.maxLatency, b.seen));
    }
    GrownSound(cfg, p, q);
  }

  lemma StepSound(cfg: Config, p: Pair, e: Event)
    requires cfg.Ok() && ChangesOk(cfg, p)
    ensures ChangesOk(cfg, Step(cfg, p, e))
  {
    hide LookAt, ChangeOk, Apart;
    match e {
      case Look(i, pcm, role) => if i < |p.buds| { LookSound(cfg, p, i, pcm, role); }
      case _ =>
        var q := Step(cfg, p, e);
        forall k | 0 <= k < |p.changes| ensures Dated(q, p.changes[k]) {
          assert Dated(p, p.changes[k]);
        }
    }
  }

  /**
    The rate monitor over every run, in any roles: each change is judged by the
    highest of the buffered times seen since the look before it, any two changes of
    one bud are 300 ms or more apart, none passes the default level, and a change goes against
    the target exactly if it starts outside the monitor's bounds on that side.
    The 32-bit clock may wrap.
  */
  lemma {:induction false} RunSound(cfg: Config, p: Pair, es: seq<Event>)
    requires cfg.Ok() && ChangesOk(cfg, p)
    ensures ChangesOk(cfg, Run(cfg, p, es))
    decreases |es|
  {
    hide Step, ChangesOk;
    if es != [] {
      StepSound(cfg, p, es[0]);
      RunSound(cfg, Step(cfg, p, es[0]), es[1..]);
    }
  }

  /** The history counts looks on one side of the target, up to two. */
  lemma CountSaturates(cfg: Config, check: int, pcm: int)
    requires -2 <= check <= 2
    ensures var n := Count(cfg, check, pcm);
      && -2 <= n <= 2
      && (pcm == cfg.target ==> n == check)
      && (pcm > cfg.target ==> n == check + 1 || (check == 2 && n == 2))
      && (pcm < cfg.target ==> n == check - 1 || (check == -2 && n == -2))
  {
  }

  lemma ElapsedExact(now: nat, then_: nat)
    requires then_ <= now < then_ + WRAP
    ensures Elapsed(now, then_) == now - then_
  {
    var qn, qt := now / WRAP, then_ / WRAP;
    assert now % WRAP - then_ % WRAP == now - then_ - WRAP * (qn - qt);
    assert 0 <= qn - qt <= 1;
  }

  /**
    A bud judges its buffer exactly 300 ms or more after the last look: before
    that it only adds to what it has seen; then it starts over, and a slave
    changes nothing but the time of its last report, every three seconds.
  */
  lemma LookJudges(cfg: Config, now: nat, b: Bud, pcm: int, role: Role)
    requires b.adjust <= b.lastCheck <= now < b.adjust + WRAP
    ensures var (b', r) := LookOne(cfg, now, b, pcm, role);
      && b'.seen == (if now < b.lastCheck + 300 then b.seen + [pcm] else [])
      && b'.lastCheck == (if now < b.lastCheck + 300 then b.lastCheck else now)
      && (now < b.lastCheck + 300 || role == Slave ==> r.None? && b'.check == b.check)
      && (now < b.lastCheck + 300 ==> b'.adjust == b.adjust)
      && (now >= b.lastCheck + 300 && role == Slave ==> b'.adjust == if now >= b.adjust + 3000 then now else b.adjust)
      && (now >= b.lastCheck + 300 && role != Slave ==> b'.adjust == if r.Some? then now else b.adjust)
      && (r.Some? ==> b'.check == 0)
      && (now >= b.lastCheck + 300 && role != Slave && r.None? ==>
            b'.check == Count(cfg, b.check, if b.maxLatency < pcm then pcm else b.maxLatency))
  {
    hide Monitor, Elapsed, Count;
    ElapsedExact(now, b.lastCheck);
    ElapsedExact(now, b.adjust);
  }

  /** A look touches the bud that looks; a request is queued at every bud and recorded. */
  lemma LookReaches(cfg: Config, p: Pair, i: nat, pcm: int, role: Role, k: nat)
    requires i < |p.buds| && k < |p.buds|
    ensures var q, b, r := LookAt(cfg, p, i, pcm, role), LookOne(cfg, p.now, p.buds[i], pcm, role).0,
        LookOne(cfg, p.now, p.buds[i], pcm, role).1;
      && |q.buds| == |p.buds| && q.now == p.now
      && q.buds[k].(queue := []) == (if k == i then b else p.buds[k]).(queue := [])
      && q.buds[k].queue == p.buds[k].queue + (if r.Some? then [r.value] else [])
      && |q.changes| == |p.changes| + (if r.Some? then 1 else 0)
  {
    hide Monitor, Elapsed;
  }

  /**
    The stream that has just started is left alone: there is no look for 300 ms,
    and the first one before 600 ms asks for a change only inward from a bound.
  */
  lemma StreamWaits(cfg: Config, now: nat, b: Bud, i: nat, d: nat, pcm: int)
    requires cfg.Ok() && 1 <= b.current <= 6 && d < 600
    ensures var b' := Own(cfg, now, b, Stream(i));
      && b'.current == b.current && b'.dest == b.dest
      && (LookOne(cfg, now + d, b', pcm, Master).1.Some? ==> d >= 300 && b.current in {1, 6})
  {
    var b' := Own(cfg, now, b, Stream(i));
    ElapsedExact(now + d, now);
    var n := Noted(b', pcm);
    ChangeIff(cfg, n.current, n.maxLatency, true, n.check, Elapsed(now + d, n.adjust));
    hide Monitor, Elapsed;
  }

  // ----- when an excursion misleads the monitor -----

  /**
    In a pair, a look goes against the target exactly if the bud is on an
    excursion outward from an outermost base level and the buffer lies on that
    side: the monitor reads the excursion's level.
  */
  lemma MisledIff(cfg: Config, now: nat, b: Bud)
    requires cfg.Ok() && BudOk(b) && -2 <= b.check <= 2
    ensures AgainstSign(cfg, b.current, b.maxLatency, Ask(cfg, now, b, true))
      <==> b.aligning && ((b.current == LEVEL_8 && b.dest == LEVEL_8 - 1 && b.maxLatency > cfg.target)
                       || (b.current == LEVEL_1 && b.dest == LEVEL_1 + 1 && b.maxLatency < cfg.target))
  {
    hide Monitor, Elapsed;
    AgainstSignIff(cfg, b.current, b.maxLatency, true, b.check, Elapsed(now, b.adjust));
  }

  /** A bud as it starts. */
  function Fresh(cfg: Config): Bud { Bud(cfg.base, cfg.base, false, 0, 0, 0, 0, 0, [], []) }

  /** After 600 ms the master finds its buffer low, and both buds carry out the change. */
  const LOWER: seq<Event> := [Pass(600), Look(0, 2000, Master), Deliver(0), Deliver(1)]

  function At(level: int, t: nat, changes: seq<Change>): Pair {
    Pair(t, [Bud(level, level, false, 0, 0, t, t, 0, [], []), Bud(level, level, false, 0, 0, 0, 0, 0, [], [])], changes)
  }

  lemma {:induction false} RunMore(cfg: Config, p: Pair, a: seq<Event>, b: seq<Event>)
    ensures Run(cfg, p, a + b) == Run(cfg, Run(cfg, p, a), b)
    decreases |a|
  {
    hide Step;
    if a == [] {
      assert a + b == b;
    } else {
      assert (a + b)[1..] == a[1..] + b;
      RunMore(cfg, Step(cfg, p, a[0]), a[1..], b);
    }
  }

  lemma RunOne(cfg: Config, p: Pair, e: Event)
    ensures Run(cfg, p, [e]) == Step(cfg, p, e)
  {
    assert Run(cfg, Step(cfg, p, e), []) == Step(cfg, p, e);
  }

  lemma RunThree(cfg: Config, p: Pair, e: Event, f: Event, g: Event)
    ensures Run(cfg, p, [e, f, g]) == Step(cfg, Step(cfg, Step(cfg, p, e), f), g)
  {
    hide Step, Run;
    assert [e, f, g] == [e] + ([f] + [g]);
    RunMore(cfg, p, [e], [f] + [g]);
    RunOne(cfg, p, e);
    var p1 := Step(cfg, p, e);
    RunMore(cfg, p1, [f], [g]);
    RunOne(cfg, p1, f);
    RunOne(cfg, Step(cfg, p1, f), g);
  }

  lemma LowLook(cfg: Config, now: nat, b: Bud, level: int)
    requires cfg == Config(4, 5000, true) && 2 <= level <= 4 && 600 <= now < 0x2000_0000
    requires b == Bud(level, level, false, 0, 0, now - 600, now - 600, 0, [], [])
    ensures LookOne(cfg, now, b, 2000, Master) == (b.(adjust := now, lastCheck := now), Some(level - 1))
    ensures Noted(b, 2000).maxLatency == 2000 && Noted(b, 2000).seen == [2000]
  {
    assert Elapsed(now, now - 600) == 600;
    assert Ask(cfg, now, Noted(b, 2000), true) == Some(level - 1);
  }

  lemma LowerOnce(cfg: Config, level: int, t: nat, changes: seq<Change>)
    requires cfg == Config(4, 5000, true) && 2 <= level <= 4 && t < 0x1000_0000
    ensures Run(cfg, At(level, t, changes), LOWER)
         == At(level - 1, t + 600, changes + [Change(t + 600, 0, true, level, level - 1, 2000, [2000])])
  {
    var p := At(level, t, changes);
    assert LOWER == [Pass(600), Look(0, 2000, Master), Deliver(0)] + [Deliver(1)];
    RunMore(cfg, p, [Pass(600), Look(0, 2000, Master), Deliver(0)], [Deliver(1)]);
    RunThree(cfg, p, Pass(600), Look(0, 2000, Master), Deliver(0));
    hide Run;
    var p1 := Step(cfg, p, Pass(600));
    LowLook(cfg, p1.now, p1.buds[0], level);
    hide LookOne, Monitor;
    var p2 := Step(cfg, p1, Look(0, 2000, Master));
    assert |p2.buds| == 2;
    assert p2.buds[0] == Bud(level, level, false, 0, 0, t + 600, t + 600, 0, [], [level - 1]);
    assert p2.buds[1] == Bud(level, level, false, 0, 0, 0, 0, 0, [], [level - 1]);
    var p3 := Step(cfg, p2, Deliver(0));
    assert p3.buds[0].queue == [];
    var p4 := Step(cfg, p3, Deliver(1));
    RunOne(cfg, p3, Deliver(1));
    assert p4.buds[1].queue == [];
    assert p4.buds == At(level - 1, t + 600, []).buds;
  }

  lemma MisledLook(cfg: Config, changes: seq<Change>)
    requires cfg == Config(4, 5000, true)
    ensures var q := Run(cfg, At(1, 1800, changes), [Diff(0, 3000), Pass(300), Look(0, 2000, Master)]);
      q.changes == changes + [Change(2100, 0, true, 0, 4, 2000, [2000])]
  {
    var p := At(1, 1800, changes);
    RunThree(cfg, p, Diff(0, 3000), Pass(300), Look(0, 2000, Master));
    hide Run;
    var p1 := Step(cfg, p, Diff(0, 3000));
    assert p1.buds[0] == Bud(0, 1, true, 2523, 0, 1800, 1800, 0, [], []);
    var p2 := Step(cfg, p1, Pass(300));
    var b := Noted(p2.buds[0], 2000);
    assert Elapsed(2100, 1800) == 300;
    assert b.seen == [2000] && Ask(cfg, p2.now, b, true) == Some(4);
  }

  /**
    It does happen.  Two fresh buds go down to level 2 on a low buffer, the master
    starts an excursion of 2523 ms to level 1, and at the next look asks for the
    default level, three steps faster, although its buffer is still low.
  */
  lemma ExcursionMisleads()
    ensures
      var cfg := Config(4, 5000, true);
      var p := Pair(0, [Fresh(cfg), Fresh(cfg)], []);
      var es := LOWER + LOWER + LOWER + [Diff(0, 3000), Pass(300), Look(0, 2000, Master)];
      var q := Run(cfg, p, es);
      |q.changes| == 4 && q.changes[3] == Change(2100, 0, true, 0, 4, 2000, [2000])
      && AgainstSign(cfg, 0, 2000, Some(4))
  {
    hide Step, Run;
    var cfg := Config(4, 5000, true);
    var p := Pair(0, [Fresh(cfg), Fresh(cfg)], []);
    var last := [Diff(0, 3000), Pass(300), Look(0, 2000, Master)];
    assert p == At(4, 0, []);
    RunMore(cfg, p, LOWER + LOWER + LOWER, last);
    RunMore(cfg, p, LOWER + LOWER, LOWER);
    RunMore(cfg, p, LOWER, LOWER);
    var c1 := [] + [Change(600, 0, true, 4, 3, 2000, [2000])];
    var c2 := c1 + [Change(1200, 0, true, 3, 2, 2000, [2000])];
    var c3 := c2 + [Change(1800, 0, true, 2, 1, 2000, [2000])];
    LowerOnce(cfg, 4, 0, []);
    LowerOnce(cfg, 3, 600, c1);
    LowerOnce(cfg, 2, 1200, c2);
    MisledLook(cfg, c3);
  }
}
