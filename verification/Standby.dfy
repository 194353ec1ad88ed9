/**
  The standby state machine and the wake locks it watches.  Time is the true
  number of milliseconds; the firmware sees it modulo 2^32.  The model records
  every lock operation, every request to hurry, every change of level and every
  automatic power-off with the time it happened, so that safety can be stated
  over whole runs.
*/
module Standby {
  import opened Basics

  datatype Kind = Partial | Full

  /** One wakelock_t: reference count and the 32-bit time of its last release. */
  datatype Lock = Lock(refs: nat, stamp: nat)

  datatype Level = Normal | S1 | S2 | S3

  datatype Act =
    | Take(t: nat, k: Kind)
    | Release(t: nat, k: Kind)
    | Hurry(t: nat, on: bool)
    | Early(t: nat, forced: bool, idle: nat)
    | Late(t: nat)
    | Suspend(t: nat, forced: bool, idle: nat)
    | DeepSleep(t: nat)
    | Resume(t: nat)
    | PowerOff(t: nat, idle: nat)

  datatype Sys = Sys(
    now: nat, partial: Lock, full: Lock, level: Level,
    idle: nat, offTime: nat, off: bool, force: bool, deep: bool, halted: bool,
    log: seq<Act>)
  {
    function Get(k: Kind): Lock { if k == Partial then partial else full }
    function Put(k: Kind, l: Lock): Sys { if k == Partial then this.(partial := l) else this.(full := l) }
    predicate Held() { partial.refs != 0 || full.refs != 0 }
  }

  // ----- wake locks -----

  /** What other code does to the locks, and the time it takes. */
  datatype Op = LockOp(k: Kind) | UnlockOp(k: Kind) | ResetOp(k: Kind) | Wait(ms: nat)

  /** sys_wake_lock; a full counter fails the source's assertion and stops the system. */
  function WakeLock(s: Sys, k: Kind): Sys {
    if s.halted then s
    else if s.Get(k).refs >= 0xFFFF then s.(halted := true)
    else s.Put(k, Lock(s.Get(k).refs + 1, 0)).(log := s.log + [Take(s.now, k)])
  }

  /** sys_wake_unlock: releasing the full lock restarts the idle time of both. */
  function WakeUnlock(s: Sys, k: Kind): Sys {
    if s.halted then s
    else if s.Get(k).refs == 0 then s.(halted := true)
    else
      var s1 := s.Put(k, Lock(s.Get(k).refs - 1, s.now % WRAP));
      var s2 := if k == Full then s1.(partial := s1.partial.(stamp := s.now % WRAP)) else s1;
      s2.(force := false, log := s.log + [Release(s.now, k)])
  }

  function Apply(s: Sys, op: Op): Sys {
    match op
    case LockOp(k) => WakeLock(s, k)
    case UnlockOp(k) => WakeUnlock(s, k)
    case ResetOp(k) => WakeUnlock(WakeLock(s, k), k)
    case Wait(ms) => s.(now := s.now + ms)
  }

  function ApplyAll(s: Sys, ops: seq<Op>): Sys
    decreases |ops|
  {
    if ops == [] then s else ApplyAll(Apply(s, ops[0]), ops[1..])
  }

  /** sys_wakelocks_get_free_time: zero while held, else the 32-bit time since the last release. */
  function FreeTime(s: Sys, k: Kind): nat {
    var l := s.Get(k);
    if l.refs == 0 then (s.now - l.stamp) % WRAP else 0
  }

  // ----- the standby machine -----

  /**
    What happens around a tick: what the drivers do on early suspend and late
    resume, what the application and the services do when told to suspend, what
    goes on during the sleep and in the callbacks that resume them, whether
    Bluetooth woke the system and whether the power-off timer fired.
  */
  datatype Env = Env(
    onEarly: seq<Op>, onLate: seq<Op>, onApp: seq<Op>, onService: seq<Op>, onSleep: seq<Op>, onResume: seq<Op>,
    byBt: bool, fired: bool)

  /** _sys_standby_enter_s1. */
  function EnterS1(s: Sys, forced: bool, env: Env): Sys {
    ApplyAll(s.(level := S1, log := s.log + [Early(s.now, forced, s.idle)]), env.onEarly)
  }

  /** _sys_standby_exit_s1. */
  function ExitS1(s: Sys, env: Env): Sys {
    ApplyAll(s.(level := Normal, log := s.log + [Late(s.now)]), env.onLate)
  }

  function BackIfHeld(s: Sys): Sys { if s.Held() then s.(level := S1) else s }

  /** _sys_standby_enter_s2. */
  function EnterS2(s: Sys, forced: bool, env: Env): Sys {
    var s1 := s.(level := S2, log := s.log + [Suspend(s.now, forced, s.idle)]);
    if s.deep then BackIfHeld(ApplyAll(BackIfHeld(ApplyAll(s1, env.onApp)), env.onService)) else s1
  }

  function ProcessNormal(s: Sys, env: Env): Sys {
    if s.full.refs == 0 && (s.force || FreeTime(s, Full) > s.idle) then EnterS1(s, FreeTime(s, Full) <= s.idle, env)
    else s
  }

  function ProcessS1(s: Sys, env: Env): Sys {
    if s.full.refs != 0 then ExitS1(s, env)
    else if FreeTime(s, Full) < s.idle then (if s.force then s else ExitS1(s, env))
    else if FreeTime(s, Partial) > s.idle then (if s.partial.refs == 0 then EnterS2(s, false, env) else s)
    else if s.force && s.partial.refs == 0 then EnterS2(s, true, env)
    else s
  }

  /** The wait in S2: back to S1 at once if a lock is held, otherwise through deep sleep. */
  function SleepOnce(s: Sys, env: Env): Sys {
    var s1 := if s.Held() then s else ApplyAll(s.(level := S3, log := s.log + [DeepSleep(s.now)]), env.onSleep);
    ApplyAll(s1.(level := S1, log := s1.log + [Resume(s1.now)]), env.onResume)
  }

  function ProcessS2(s: Sys, env: Env): Sys {
    var s1 := SleepOnce(s.(force := false), env);
    var s2 := s1.(off := s1.off || env.fired);
    if s2.off then s2
    else if !env.byBt then WakeUnlock(ExitS1(WakeLock(s2, Full), env), Full)
    else WakeUnlock(WakeLock(s2, Partial), Partial)
  }

  /** _sys_standby_work_handle, the periodic tick. */
  function Tick(s: Sys, env: Env): Sys {
    if s.halted || s.off then s
    else if FreeTime(s, Partial) > s.offTime && FreeTime(s, Full) > s.offTime then
      s.(off := true, log := s.log + [PowerOff(s.now, s.offTime)])
    else match s.level
      case Normal => ProcessNormal(s, env)
      case S1 => ProcessS1(s, env)
      case S2 => ProcessS2(s, env)
      case S3 => s
  }

  datatype Event =
    | Pass(ms: nat)
    | Locks(op: Op)
    | Work(env: Env)
    | Fast(on: bool)
    | SetIdle(ms: nat)
    | SetOff(ms: nat)
    | SetDeep(on: bool)

  function Step(s: Sys, e: Event): Sys {
    match e
    case Pass(ms) => s.(now := s.now + ms)
    case Locks(op) => Apply(s, op)
    case Work(env) => Tick(s, env)
    case Fast(on) => s.(force := on, log := s.log + [Hurry(s.now, on)])
    case SetIdle(ms) => s.(idle := ms % WRAP)
    case SetOff(ms) => s.(offTime := ms % WRAP)
    case SetDeep(on) => s.(deep := on)
  }

  function Run(s: Sys, es: seq<Event>): Sys
    decreases |es|
  {
    if es == [] then s else Run(Step(s, es[0]), es[1..])
  }

  /** sys_standby_init at time `t`: the wake locks start idle and the full lock is taken once. */
  function Boot(t: nat, idle: nat, offTime: nat): Sys {
    WakeLock(Sys(t, Lock(0, t % WRAP), Lock(0, t % WRAP), Normal, idle, offTime, false, false, true, false, []), Full)
  }

  // ----- reading the record -----

  function Count(log: seq<Act>, k: Kind): int {
    if log == [] then 0
    else
      var a := log[|log| - 1];
      Count(log[..|log| - 1], k)
      + (if a.Take? && a.k == k then 1 else if a.Release? && a.k == k then -1 else 0)
  }

  predicate Touches(a: Act, k: Kind) { (a.Take? || a.Release?) && a.k == k }

  /** The idle clock of `k` restarts at its own operations, and the partial one also when the full lock is released. */
  predicate Restarts(a: Act, k: Kind) { Touches(a, k) || (a.Release? && a.k == Full) }

  function Since(log: seq<Act>, k: Kind, boot: nat): nat {
    if log == [] then boot
    else if Restarts(log[|log| - 1], k) then log[|log| - 1].t
    else Since(log[..|log| - 1], k, boot)
  }

  /** `k` is free and was neither taken nor released in the last `ms` milliseconds before `t`. */
  ghost predicate Quiet(log: seq<Act>, k: Kind, t: nat, ms: nat) {
    Count(log, k) == 0 && forall i :: 0 <= i < |log| && Touches(log[i], k) ==> log[i].t + ms <= t
  }

  /** The drivers are in early suspend. */
  predicate Down(log: seq<Act>) {
    log != [] && var a := log[|log| - 1]; a.Early? || (!a.Late? && Down(log[..|log| - 1]))
  }

  /** The applications were told to suspend, and have not been told to resume. */
  predicate Suspended(log: seq<Act>) {
    log != [] && var a := log[|log| - 1]; a.Suspend? || (!a.Resume? && Suspended(log[..|log| - 1]))
  }

  /** The system was asked to hurry, with no lock released and no sleep ended since. */
  predicate Hurried(log: seq<Act>) {
    log != [] && var a := log[|log| - 1];
    if a.Hurry? then a.on else !a.Release? && !a.Resume? && Hurried(log[..|log| - 1])
  }

  ghost predicate ActSafe(before: seq<Act>, a: Act) {
    match a
    case Early(t, forced, idle) =>
      && !Down(before) && Count(before, Full) == 0
      && (if forced then Hurried(before) else Quiet(before, Full, t, idle + 1))
    case Late(_) => Down(before)
    case DeepSleep(_) => Down(before) && Suspended(before) && Count(before, Partial) == 0 && Count(before, Full) == 0
    case Resume(_) => Down(before) && Suspended(before)
    case Suspend(t, forced, idle) =>
      && Down(before) && Quiet(before, Full, t, idle) && Count(before, Partial) == 0
      && (if forced then Hurried(before) else Quiet(before, Partial, t, idle + 1))
    case PowerOff(t, idle) => Quiet(before, Full, t, idle + 1) && Quiet(before, Partial, t, idle + 1)
    case Take(_, _) => true
    case Release(_, _) => true
    case Hurry(_, _) => true
  }

  ghost predicate Safe(log: seq<Act>) {
    forall i :: 0 <= i < |log| ==> ActSafe(log[..i], log[i])
  }

  ghost predicate Ordered(log: seq<Act>, now: nat) {
    && (forall i, j :: 0 <= i < j < |log| ==> log[i].t <= log[j].t)
    && (forall i :: 0 <= i < |log| ==> log[i].t <= now)
  }

  /** The lock agrees with the record. */
  ghost predicate LockOk(s: Sys, k: Kind, boot: nat) {
    && s.Get(k).refs == Count(s.log, k)
    && (s.Get(k).refs == 0 ==> s.Get(k).stamp == Since(s.log, k, boot) % WRAP)
  }

  /** So do the level and the request to hurry. */
  ghost predicate LevelOk(s: Sys) {
    && (s.level == Normal <==> !Down(s.log)) && (s.level in {S2, S3} ==> Suspended(s.log))
    && (s.force ==> Hurried(s.log))
  }

  ghost predicate Core(s: Sys, boot: nat) {
    && boot <= s.now && Ordered(s.log, s.now) && Safe(s.log)
    && LockOk(s, Partial, boot) && LockOk(s, Full, boot) && LevelOk(s)
  }

  ghost predicate Inv(s: Sys, boot: nat) {
    Core(s, boot) && s.level != S3
  }

  // ----- appending to the record -----

  lemma Appended(log: seq<Act>, a: Act, k: Kind, boot: nat)
    ensures var log' := log + [a];
      && Count(log', k) == Count(log, k) + (if a.Take? && a.k == k then 1 else if a.Release? && a.k == k then -1 else 0)
      && Since(log', k, boot) == (if Restarts(a, k) then a.t else Since(log, k, boot))
  {
    assert (log + [a])[..|log|] == log;
  }

  lemma AppendedLevel(log: seq<Act>, a: Act)
    ensures var log' := log + [a];
      && (Down(log') <==> a.Early? || (!a.Late? && Down(log)))
      && (Suspended(log') <==> a.Suspend? || (!a.Resume? && Suspended(log)))
      && (Hurried(log') <==> if a.Hurry? then a.on else !a.Release? && !a.Resume? && Hurried(log))
  {
    assert (log + [a])[..|log|] == log;
  }

  lemma AppendSafe(log: seq<Act>, a: Act, now: nat)
    requires Safe(log) && ActSafe(log, a) && Ordered(log, now) && a.t == now
    ensures Safe(log + [a]) && Ordered(log + [a], now)
  {
    hide ActSafe;
    var log' := log + [a];
    forall i | 0 <= i < |log'| ensures ActSafe(log'[..i], log'[i]) {
      assert log'[..i] == log[..i];
      if i == |log| { assert log[..i] == log; }
    }
  }

  lemma LaterOrdered(log: seq<Act>, now: nat, now': nat)
    requires Ordered(log, now) && now <= now'
    ensures Ordered(log, now')
  {
  }

  // ----- wake locks keep the record true -----

  lemma WakeLockKeeps(s: Sys, k: Kind, boot: nat)
    requires Core(s, boot)
    ensures Core(WakeLock(s, k), boot) && WakeLock(s, k).level == s.level && WakeLock(s, k).now == s.now
  {
    hide Safe, Ordered, Count, Since, Down, Suspended, Hurried;
    if !s.halted && s.Get(k).refs < 0xFFFF {
      var a := Take(s.now, k);
      AppendSafe(s.log, a, s.now);
      AppendedLevel(s.log, a);
      Appended(s.log, a, Partial, boot);
      Appended(s.log, a, Full, boot);
    }
  }

  lemma WakeUnlockKeeps(s: Sys, k: Kind, boot: nat)
    requires Core(s, boot)
    ensures Core(WakeUnlock(s, k), boot) && WakeUnlock(s, k).level == s.level && WakeUnlock(s, k).now == s.now
  {
    hide Safe, Ordered, Count, Since, Down, Suspended, Hurried;
    if !s.halted && s.Get(k).refs != 0 {
      var a := Release(s.now, k);
      AppendSafe(s.log, a, s.now);
      AppendedLevel(s.log, a);
      Appended(s.log, a, Partial, boot);
      Appended(s.log, a, Full, boot);
    }
  }

  lemma ApplyKeeps(s: Sys, op: Op, boot: nat)
    requires Core(s, boot)
    ensures Core(Apply(s, op), boot) && Apply(s, op).level == s.level && s.now <= Apply(s, op).now
  {
    hide Core, WakeLock, WakeUnlock;
    match op {
      case LockOp(k) => WakeLockKeeps(s, k, boot);
      case UnlockOp(k) => WakeUnlockKeeps(s, k, boot);
      case ResetOp(k) =>
        WakeLockKeeps(s, k, boot);
        WakeUnlockKeeps(WakeLock(s, k), k, boot);
      case Wait(ms) => SameRecord(s, s.(now := s.now + ms), boot);
    }
  }

  lemma {:induction false} ApplyAllKeeps(s: Sys, ops: seq<Op>, boot: nat)
    requires Core(s, boot)
    ensures Core(ApplyAll(s, ops), boot) && ApplyAll(s, ops).level == s.level && s.now <= ApplyAll(s, ops).now
    decreases |ops|
  {
    hide Core, Apply;
    if ops != [] {
      ApplyKeeps(s, ops[0], boot);
      ApplyAllKeeps(Apply(s, ops[0]), ops[1..], boot);
    }
  }

  /** A lock counts up to 65535 and down to zero; one step further in either direction stops the system. */
  lemma LockCounts(s: Sys, k: Kind, other: Kind)
    requires !s.halted && k != other
    ensures var l := WakeLock(s, k);
      && (if s.Get(k).refs < 65535 then !l.halted && l.Get(k).refs == s.Get(k).refs + 1 && l.force == s.force
          else l == s.(halted := true))
      && l.Get(other) == s.Get(other)
    ensures var u := WakeUnlock(s, k);
      && (if s.Get(k).refs > 0 then !u.halted && u.Get(k).refs == s.Get(k).refs - 1 && !u.force
          else u == s.(halted := true))
      && u.Get(other).refs == s.Get(other).refs
  {
  }

  /** What a list of operations comes to. */
  function Net(ops: seq<Op>, k: Kind): int {
    if ops == [] then 0
    else (if ops[0] == LockOp(k) then 1 else if ops[0] == UnlockOp(k) then -1 else 0) + Net(ops[1..], k)
  }

  function Waits(ops: seq<Op>): nat {
    if ops == [] then 0 else (if ops[0].Wait? then ops[0].ms else 0) + Waits(ops[1..])
  }

  /** Unless the system stops, every operation of a list is carried out. */
  lemma {:induction false} ApplyAllCounts(s: Sys, ops: seq<Op>, k: Kind)
    requires !ApplyAll(s, ops).halted
    ensures ApplyAll(s, ops).Get(k).refs == s.Get(k).refs + Net(ops, k)
    ensures ApplyAll(s, ops).now == s.now + Waits(ops)
    decreases |ops|
  {
    hide Apply;
    if ops != [] {
      assert Net([ops[0]][1..], k) == 0 && Waits([ops[0]][1..]) == 0;
      StaysHalted(Apply(s, ops[0]), ops[1..]);
      ApplyCounts(s, ops[0], k);
      ApplyAllCounts(Apply(s, ops[0]), ops[1..], k);
    }
  }

  lemma ApplyCounts(s: Sys, op: Op, k: Kind)
    requires !Apply(s, op).halted
    ensures Apply(s, op).Get(k).refs == s.Get(k).refs + Net([op], k)
    ensures Apply(s, op).now == s.now + Waits([op])
  {
    assert Net([op][1..], k) == 0 && Waits([op][1..]) == 0;
    if !op.Wait? {
      hide WakeLock, WakeUnlock;
      HaltsFor(s, op.k);
      HaltsFor(WakeLock(s, op.k), op.k);
      var other := if op.k == Partial then Full else Partial;
      LockCounts(s, op.k, other);
      if op.ResetOp? { LockCounts(WakeLock(s, op.k), op.k, other); }
    }
  }

  lemma HaltsFor(s: Sys, k: Kind)
    ensures s.halted ==> WakeLock(s, k) == s && WakeUnlock(s, k) == s
    ensures WakeLock(s, k).now == s.now && WakeUnlock(s, k).now == s.now
  {
  }

  lemma {:induction false} StaysHalted(s: Sys, ops: seq<Op>)
    ensures s.halted ==> ApplyAll(s, ops).halted
    decreases |ops|
  {
    if ops != [] { StaysHalted(Apply(s, ops[0]), ops[1..]); }
  }

  // ----- idle time is sound under 32-bit wrap -----

  lemma {:induction false} SinceCovers(log: seq<Act>, k: Kind, boot: nat, now: nat)
    requires Ordered(log, now) && boot <= now
    ensures Since(log, k, boot) <= now
    ensures forall i :: 0 <= i < |log| && Touches(log[i], k) ==> log[i].t <= Since(log, k, boot)
    decreases |log|
  {
    if log != [] {
      var front := log[..|log| - 1];
      SinceCovers(front, k, boot, now);
      if !Restarts(log[|log| - 1], k) {
        assert forall i :: 0 <= i < |front| ==> front[i] == log[i];
      }
    }
  }

  /** The wrapped difference never exceeds the true one. */
  lemma ElapsedSound(now: nat, since: nat)
    requires since <= now
    ensures (now - since % WRAP) % WRAP <= now - since
  {
    var d := now - since;
    assert (now - since % WRAP) - d == WRAP * (since / WRAP);
    ModShift(d, since / WRAP);
  }

  lemma {:induction false} ModShift(d: nat, q: nat)
    ensures (d + WRAP * q) % WRAP == d % WRAP <= d
    decreases q
  {
    if q != 0 {
      ModShift(d, q - 1);
      assert d + WRAP * q == d + WRAP * (q - 1) + WRAP;
    }
  }

  /** A free lock whose idle time reads at least `ms` has been left alone for that long. */
  lemma IdleIsQuiet(s: Sys, k: Kind, boot: nat, ms: nat)
    requires Core(s, boot) && s.Get(k).refs == 0 && ms <= FreeTime(s, k)
    ensures Quiet(s.log, k, s.now, ms)
  {
    SinceCovers(s.log, k, boot, s.now);
    ElapsedSound(s.now, Since(s.log, k, boot));
  }

  // ----- every tick -----

  lemma SameRecord(s: Sys, s': Sys, boot: nat)
    requires Core(s, boot) && s'.log == s.log && s'.partial == s.partial && s'.full == s.full && s.now <= s'.now
    requires s'.level == s.level || (s.level in {S2, S3} && s'.level == S1)
    requires s'.force ==> s.force
    ensures Core(s', boot)
  {
    LaterOrdered(s.log, s.now, s'.now);
  }

  function LevelAfter(level: Level, a: Act): Level {
    match a
    case Early(_, _, _) => S1
    case Late(_) => Normal
    case Suspend(_, _, _) => S2
    case DeepSleep(_) => S3
    case Resume(_) => S1
    case _ => level
  }

  /** Recording a step of the machine itself does not disturb the locks. */
  lemma RecordKeeps(s: Sys, s': Sys, a: Act, boot: nat)
    requires Core(s, boot) && ActSafe(s.log, a) && a.t == s.now && !a.Take? && !a.Release?
    requires s'.log == s.log + [a] && s'.partial == s.partial && s'.full == s.full && s'.now == s.now
    requires s'.level == LevelAfter(s.level, a) && s'.force == (if a.Hurry? then a.on else s.force)
    requires a.Resume? ==> !s.force
    ensures Core(s', boot)
  {
    assert a.Suspend? || a.DeepSleep? || a.Resume? ==> Down(s.log);
    assert a.DeepSleep? ==> Suspended(s.log);
    hide Safe, Ordered, Count, Since, Down, Suspended, Hurried, ActSafe;
    AppendSafe(s.log, a, s.now);
    AppendedLevel(s.log, a);
    Appended(s.log, a, Partial, boot);
    Appended(s.log, a, Full, boot);
  }

  lemma EnterS1Keeps(s: Sys, forced: bool, env: Env, boot: nat)
    requires Inv(s, boot) && ActSafe(s.log, Early(s.now, forced, s.idle))
    ensures Inv(EnterS1(s, forced, env), boot) && EnterS1(s, forced, env).level == S1
  {
    hide Core, ActSafe, ApplyAll;
    var a := Early(s.now, forced, s.idle);
    var s1 := s.(level := S1, log := s.log + [a]);
    RecordKeeps(s, s1, a, boot);
    ApplyAllKeeps(s1, env.onEarly, boot);
  }

  lemma ExitS1Keeps(s: Sys, env: Env, boot: nat)
    requires Inv(s, boot) && s.level != Normal
    ensures Inv(ExitS1(s, env), boot) && ExitS1(s, env).level == Normal
  {
    hide ActSafe, ApplyAll, LockOk, Safe, Ordered;
    var a := Late(s.now);
    assert ActSafe(s.log, a) by { LateSafe(s); }
    var s1 := s.(level := Normal, log := s.log + [a]);
    RecordKeeps(s, s1, a, boot);
    ApplyAllKeeps(s1, env.onLate, boot);
  }

  lemma LateSafe(s: Sys)
    requires Down(s.log)
    ensures ActSafe(s.log, Late(s.now))
  {
  }

  lemma ProcessNormalKeeps(s: Sys, env: Env, boot: nat)
    requires Inv(s, boot) && s.level == Normal
    ensures Inv(ProcessNormal(s, env), boot)
  {
    hide EnterS1, Safe, Ordered, Quiet;
    if s.full.refs == 0 {
      if FreeTime(s, Full) > s.idle {
        IdleIsQuiet(s, Full, boot, s.idle + 1);
        EnterS1Keeps(s, false, env, boot);
      } else if s.force {
        EnterS1Keeps(s, true, env, boot);
      }
    }
  }

  lemma EnterS2Keeps(s: Sys, forced: bool, env: Env, boot: nat)
    requires Inv(s, boot) && ActSafe(s.log, Suspend(s.now, forced, s.idle))
    ensures Inv(EnterS2(s, forced, env), boot)
  {
    hide Core, ActSafe, ApplyAll;
    var a := Suspend(s.now, forced, s.idle);
    var s1 := s.(level := S2, log := s.log + [a]);
    RecordKeeps(s, s1, a, boot);
    if s.deep {
      var s2 := ApplyAll(s1, env.onApp);
      ApplyAllKeeps(s1, env.onApp, boot);
      SameRecord(s2, BackIfHeld(s2), boot);
      var s3 := ApplyAll(BackIfHeld(s2), env.onService);
      ApplyAllKeeps(BackIfHeld(s2), env.onService, boot);
      SameRecord(s3, BackIfHeld(s3), boot);
    }
  }

  lemma ProcessS1Keeps(s: Sys, env: Env, boot: nat)
    requires Inv(s, boot) && s.level == S1
    ensures Inv(ProcessS1(s, env), boot)
  {
    hide EnterS2, ExitS1, Safe, Ordered, Quiet;
    if s.full.refs != 0 || (FreeTime(s, Full) < s.idle && !s.force) {
      ExitS1Keeps(s, env, boot);
    } else if s.full.refs == 0 && FreeTime(s, Full) >= s.idle && s.partial.refs == 0 {
      IdleIsQuiet(s, Full, boot, s.idle);
      if FreeTime(s, Partial) > s.idle {
        IdleIsQuiet(s, Partial, boot, s.idle + 1);
        EnterS2Keeps(s, false, env, boot);
      } else if s.force {
        EnterS2Keeps(s, true, env, boot);
      }
    }
  }

  lemma SleepOnceKeeps(s: Sys, env: Env, boot: nat)
    requires Core(s, boot) && s.level == S2 && !s.force
    ensures Core(SleepOnce(s, env), boot) && SleepOnce(s, env).level == S1
  {
    hide ApplyAll, Core, ActSafe;
    var s1 := s;
    if !s.Held() {
      var a := DeepSleep(s.now);
      var s0 := s.(level := S3, log := s.log + [a]);
      SleepSafe(s, boot);
      RecordKeeps(s, s0, a, boot);
      ApplyAllKeeps(s0, env.onSleep, boot);
      ForceStays(s0, env.onSleep);
      s1 := ApplyAll(s0, env.onSleep);
    }
    var a := Resume(s1.now);
    var s2 := s1.(level := S1, log := s1.log + [a]);
    ResumeSafe(s1, boot);
    RecordKeeps(s1, s2, a, boot);
    ApplyAllKeeps(s2, env.onResume, boot);
  }

  lemma SleepSafe(s: Sys, boot: nat)
    requires Core(s, boot) && s.level == S2 && !s.Held()
    ensures ActSafe(s.log, DeepSleep(s.now))
  {
    hide Safe, Ordered, Count, Since, Down, Suspended, Hurried;
  }

  lemma ResumeSafe(s: Sys, boot: nat)
    requires Core(s, boot) && s.level in {S2, S3}
    ensures ActSafe(s.log, Resume(s.now))
  {
    hide Safe, Ordered, Count, Since, Down, Suspended, Hurried;
  }

  /** Lock traffic can only take back a request to hurry. */
  lemma {:induction false} ForceStays(s: Sys, ops: seq<Op>)
    requires !s.force
    ensures !ApplyAll(s, ops).force
    decreases |ops|
  {
    if ops != [] { ForceStays(Apply(s, ops[0]), ops[1..]); }
  }

  lemma ProcessS2Keeps(s: Sys, env: Env, boot: nat)
    requires Inv(s, boot) && s.level == S2
    ensures Inv(ProcessS2(s, env), boot)
  {
    hide Core, SleepOnce, WakeLock, WakeUnlock, ExitS1;
    var s0 := s.(force := false);
    SameRecord(s, s0, boot);
    SleepOnceKeeps(s0, env, boot);
    var s1 := SleepOnce(s0, env);
    var s2 := s1.(off := s1.off || env.fired);
    SameRecord(s1, s2, boot);
    if !s2.off {
      var k := if env.byBt then Partial else Full;
      WakeLockKeeps(s2, k, boot);
      var s3 := WakeLock(s2, k);
      if env.byBt {
        WakeUnlockKeeps(s3, k, boot);
      } else {
        ExitS1Keeps(s3, env, boot);
        WakeUnlockKeeps(ExitS1(s3, env), k, boot);
      }
    }
  }

  lemma TickKeeps(s: Sys, env: Env, boot: nat)
    requires Inv(s, boot)
    ensures Inv(Tick(s, env), boot)
  {
    hide ProcessNormal, ProcessS1, ProcessS2, Safe, Ordered, Quiet;
    if !s.halted && !s.off {
      if FreeTime(s, Partial) > s.offTime && FreeTime(s, Full) > s.offTime {
        IdleIsQuiet(s, Full, boot, s.offTime + 1);
        IdleIsQuiet(s, Partial, boot, s.offTime + 1);
        RecordKeeps(s, Tick(s, env), PowerOff(s.now, s.offTime), boot);
      } else if s.level == Normal {
        ProcessNormalKeeps(s, env, boot);
      } else if s.level == S1 {
        ProcessS1Keeps(s, env, boot);
      } else if s.level == S2 {
        ProcessS2Keeps(s, env, boot);
      }
    }
  }

  lemma StepKeeps(s: Sys, e: Event, boot: nat)
    requires Inv(s, boot)
    ensures Inv(Step(s, e), boot)
  {
    hide Core, Tick, Apply;
    match e {
      case Locks(op) => ApplyKeeps(s, op, boot);
      case Work(env) => TickKeeps(s, env, boot);
      case Pass(ms) => SameRecord(s, s.(now := s.now + ms), boot);
      case Fast(on) => RecordKeeps(s, s.(force := on, log := s.log + [Hurry(s.now, on)]), Hurry(s.now, on), boot);
      case SetIdle(ms) => SameRecord(s, s.(idle := ms % WRAP), boot);
      case SetOff(ms) => SameRecord(s, s.(offTime := ms % WRAP), boot);
      case SetDeep(on) => SameRecord(s, s.(deep := on), boot);
    }
  }

  lemma {:induction false} RunKeeps(s: Sys, es: seq<Event>, boot: nat)
    requires Inv(s, boot)
    ensures Inv(Run(s, es), boot)
    decreases |es|
  {
    hide Inv, Step;
    if es != [] {
      StepKeeps(s, es[0], boot);
      RunKeeps(Step(s, es[0]), es[1..], boot);
    }
  }

  /**
    Standby safety over every run from boot: early suspend, suspend, deep sleep
    and automatic power-off happen only when the record of everything so far
    allows them, resumes answer suspends, the counters and the level agree with
    the record, and no tick ends in S3.
  */
  lemma StandbySafe(t: nat, idle: nat, offTime: nat, es: seq<Event>)
    ensures var s := Run(Boot(t, idle, offTime), es);
      && Safe(s.log) && s.level != S3
      && (s.level == Normal <==> !Down(s.log)) && (s.level == S2 ==> Suspended(s.log))
      && s.partial.refs == Count(s.log, Partial) && s.full.refs == Count(s.log, Full)
  {
    hide Safe, Count, Run, Boot, Down, Suspended;
    BootSafe(t, idle, offTime);
    RunKeeps(Boot(t, idle, offTime), es, t);
  }

  lemma BootSafe(t: nat, idle: nat, offTime: nat)
    ensures Inv(Boot(t, idle, offTime), t)
  {
    var s := Sys(t, Lock(0, t % WRAP), Lock(0, t % WRAP), Normal, idle, offTime, false, false, true, false, []);
    WakeLockKeeps(s, Full, t);
  }

  // ----- what quiet means -----

  /** The number of holders of `k` as of time `tau`. */
  function CountAt(log: seq<Act>, k: Kind, tau: nat): int {
    if log == [] then 0
    else
      var a := log[|log| - 1];
      CountAt(log[..|log| - 1], k, tau)
      + (if a.t > tau then 0 else if a.Take? && a.k == k then 1 else if a.Release? && a.k == k then -1 else 0)
  }

  lemma {:induction false} CountAtIsCount(log: seq<Act>, k: Kind, tau: nat)
    requires forall i :: 0 <= i < |log| && Touches(log[i], k) ==> log[i].t <= tau
    ensures CountAt(log, k, tau) == Count(log, k)
    decreases |log|
  {
    if log != [] {
      var front := log[..|log| - 1];
      assert forall i :: 0 <= i < |front| ==> front[i] == log[i];
      CountAtIsCount(front, k, tau);
    }
  }

  /** A suspend that was not forced: nobody held either lock at any moment of the idle time before it. */
  lemma UnforcedSuspendWasIdle(log: seq<Act>, i: nat, k: Kind, tau: nat)
    requires Safe(log) && i < |log| && log[i].Suspend? && !log[i].forced
    requires log[i].t <= tau + log[i].idle && tau <= log[i].t
    ensures CountAt(log[..i], k, tau) == 0
  {
    assert ActSafe(log[..i], log[i]);
    CountAtIsCount(log[..i], k, tau);
  }

  // ----- the record is complete, and the machine does go to sleep -----

  lemma {:induction false} ApplyAllExtends(s: Sys, ops: seq<Op>)
    ensures s.log <= ApplyAll(s, ops).log
    decreases |ops|
  {
    if ops != [] {
      ApplyAllExtends(Apply(s, ops[0]), ops[1..]);
    }
  }

  lemma {:induction false} ApplyAllLevel(s: Sys, ops: seq<Op>)
    ensures ApplyAll(s, ops).level == s.level && ApplyAll(s, ops).off == s.off
    decreases |ops|
  {
    hide Apply;
    if ops != [] {
      ApplyLevel(s, ops[0]);
      ApplyAllLevel(Apply(s, ops[0]), ops[1..]);
    }
  }

  lemma ApplyLevel(s: Sys, op: Op)
    ensures Apply(s, op).level == s.level && Apply(s, op).off == s.off
  {
    hide WakeLock, WakeUnlock;
    if !op.Wait? {
      TakeLocal(s, op.k);
      ReleaseLocal(s, op.k);
      ReleaseLocal(WakeLock(s, op.k), op.k);
    }
  }

  /** The tick is not taken up by the automatic power-off. */
  predicate Ticks(s: Sys) {
    !s.halted && !s.off && !(FreeTime(s, Partial) > s.offTime && FreeTime(s, Full) > s.offTime)
  }

  /** Idle time is exact until the 32-bit counter wraps. */
  lemma IdleIsExact(s: Sys, k: Kind, boot: nat)
    requires Core(s, boot)
    ensures s.Get(k).refs != 0 ==> FreeTime(s, k) == 0
    ensures var since := Since(s.log, k, boot);
      s.Get(k).refs == 0 && s.now < since + WRAP ==> FreeTime(s, k) == s.now - since
  {
    SinceCovers(s.log, k, boot, s.now);
    if s.now < Since(s.log, k, boot) + WRAP { FreeFor(s, k, Since(s.log, k, boot)); }
  }

  lemma FreeFor(s: Sys, k: Kind, since: nat)
    requires since <= s.now < since + WRAP
    ensures s.Get(k) == Lock(0, since % WRAP) ==> FreeTime(s, k) == s.now - since
  {
    ModShift(s.now - since, since / WRAP);
    assert s.now - since % WRAP == s.now - since + WRAP * (since / WRAP);
  }

  /** Power goes off exactly when both idle times exceed the power-off time, or its timer fires in S2. */
  lemma PowersOff(s: Sys, env: Env)
    requires !s.halted && !s.off
    ensures var s' := Tick(s, env);
      && (!Ticks(s) ==> s' == s.(off := true, log := s.log + [PowerOff(s.now, s.offTime)]))
      && (Ticks(s) ==> (s'.off <==> s.level == S2 && env.fired))
  {
    hide ApplyAll, FreeTime;
    if Ticks(s) && s.level == Normal {
      ApplyAllLevel(s.(level := S1, log := s.log + [Early(s.now, FreeTime(s, Full) <= s.idle, s.idle)]), env.onEarly);
    } else if Ticks(s) && s.level == S1 {
      ApplyAllLevel(s.(level := Normal, log := s.log + [Late(s.now)]), env.onLate);
      EnterS2Off(s, false, env);
      EnterS2Off(s, true, env);
    } else if Ticks(s) && s.level == S2 {
      WakesTo(s, env);
    }
  }

  lemma EnterS2Off(s: Sys, forced: bool, env: Env)
    ensures EnterS2(s, forced, env).off == s.off
  {
    hide ApplyAll;
    var s1 := s.(level := S2, log := s.log + [Suspend(s.now, forced, s.idle)]);
    ApplyAllLevel(s1, env.onApp);
    ApplyAllLevel(BackIfHeld(ApplyAll(s1, env.onApp)), env.onService);
  }

  /** A tick in Normal goes to S1 exactly when nobody holds the full lock and it is idle or hurry was asked for. */
  lemma LeavesNormal(s: Sys, env: Env)
    requires Ticks(s) && s.level == Normal
    ensures var s' := Tick(s, env);
      && (s'.level == S1 <==> s.full.refs == 0 && (s.force || FreeTime(s, Full) > s.idle))
      && (s'.level == S1 ==> s.log + [Early(s.now, FreeTime(s, Full) <= s.idle, s.idle)] <= s'.log)
      && (s'.level != S1 ==> s' == s)
  {
    hide ApplyAll, FreeTime;
    var s1 := s.(level := S1, log := s.log + [Early(s.now, FreeTime(s, Full) <= s.idle, s.idle)]);
    ApplyAllLevel(s1, env.onEarly);
    ApplyAllExtends(s1, env.onEarly);
  }

  /**
    A tick in S1 ends in Normal exactly when the full lock is held or was
    released too recently with no hurry; otherwise it suspends exactly when
    nobody holds the partial lock and it is idle or hurry was asked for.
  */
  lemma LeavesS1(s: Sys, env: Env)
    requires Ticks(s) && s.level == S1
    ensures var s' := Tick(s, env);
      var up := s.full.refs != 0 || (FreeTime(s, Full) < s.idle && !s.force);
      var down := s.full.refs == 0 && FreeTime(s, Full) >= s.idle && s.partial.refs == 0
                  && (s.force || FreeTime(s, Partial) > s.idle);
      && (s'.level == Normal <==> up)
      && (up ==> s.log + [Late(s.now)] <= s'.log)
      && (down ==> s.log + [Suspend(s.now, FreeTime(s, Partial) <= s.idle, s.idle)] <= s'.log)
      && (!up && !down ==> s' == s)
  {
    hide ApplyAll, FreeTime;
    var s1 := s.(level := Normal, log := s.log + [Late(s.now)]);
    ApplyAllLevel(s1, env.onLate);
    ApplyAllExtends(s1, env.onLate);
    Suspends(s, FreeTime(s, Partial) <= s.idle, env);
  }

  /** A tick that reaches S2 came from S1 and recorded the suspend first. */
  lemma SuspendIsRecorded(s: Sys, env: Env)
    requires s.level != S2 && Tick(s, env).level == S2
    ensures var s' := Tick(s, env);
      && s.level == S1 && |s.log| < |s'.log| && s.log <= s'.log
      && s'.log[|s.log|].Suspend? && s'.log[|s.log|].t == s.now && s'.log[|s.log|].idle == s.idle
      && (s'.log[|s.log|].forced ==> s.force)
  {
    hide ApplyAll, FreeTime, ProcessNormal, ProcessS1;
    if s.level == Normal { LeavesNormal(s, env); } else { LeavesS1(s, env); }
  }

  /**
    A suspend ends in S2, unless a lock is held when the application or the
    services have answered it: then the machine is back in S1, and nobody has
    been told to resume.
  */
  lemma Suspends(s: Sys, forced: bool, env: Env)
    ensures var s' := EnterS2(s, forced, env);
      var s1 := s.(level := S2, log := s.log + [Suspend(s.now, forced, s.idle)]);
      && s1.log <= s'.log && Suspended(s'.log)
      && s'.level == (if s.deep && (ApplyAll(s1, env.onApp).Held() || s'.Held()) then S1 else S2)
  {
    hide ApplyAll;
    var s1 := s.(level := S2, log := s.log + [Suspend(s.now, forced, s.idle)]);
    AppendedLevel(s.log, Suspend(s.now, forced, s.idle));
    if s.deep {
      var s2 := BackIfHeld(ApplyAll(s1, env.onApp));
      ApplyAllLevel(s1, env.onApp);
      ApplyAllExtends(s1, env.onApp);
      StaySuspended(s1, env.onApp);
      ApplyAllLevel(s2, env.onService);
      ApplyAllExtends(s2, env.onService);
      StaySuspended(s2, env.onService);
    }
  }

  lemma {:induction false} StaySuspended(s: Sys, ops: seq<Op>)
    requires Suspended(s.log)
    ensures Suspended(ApplyAll(s, ops).log)
    decreases |ops|
  {
    hide Suspended;
    if ops != [] {
      var k := if ops[0].Wait? then Full else ops[0].k;
      AppendedLevel(s.log, Take(s.now, k));
      AppendedLevel(s.log, Release(s.now, k));
      AppendedLevel(s.log + [Take(s.now, k)], Release(s.now, k));
      StaySuspended(Apply(s, ops[0]), ops[1..]);
    }
  }

  /**
    A tick in S2 sleeps exactly when both locks are free.  It ends in Normal
    unless Bluetooth woke the system or the power is going off, and the idle
    time of the lock that goes with the wake-up starts again.
  */
  lemma WakesTo(s: Sys, env: Env)
    requires Ticks(s) && s.level == S2
    ensures var s' := Tick(s, env);
      && s'.off == env.fired
      && s'.level == (if env.byBt || env.fired then S1 else Normal)
      && s.log + [if s.Held() then Resume(s.now) else DeepSleep(s.now)] <= s'.log
      && (!s'.halted && !s'.off ==> FreeTime(s', if env.byBt then Partial else Full) == 0)
  {
    hide ApplyAll, WakeLock, WakeUnlock;
    var s0 := s.(force := false);
    SleepsOnce(s0, env);
    var s1 := SleepOnce(s0, env);
    var s2 := s1.(off := s1.off || env.fired);
    if !s2.off {
      var k := if env.byBt then Partial else Full;
      TakeLocal(s2, k);
      var s3 := WakeLock(s2, k);
      if !env.byBt {
        var s4 := s3.(level := Normal, log := s3.log + [Late(s3.now)]);
        ApplyAllLevel(s4, env.onLate);
        ApplyAllExtends(s4, env.onLate);
        s3 := ExitS1(s3, env);
      }
      ReleaseLocal(s3, k);
    }
  }

  lemma SleepsOnce(s: Sys, env: Env)
    ensures var s' := SleepOnce(s, env);
      && s'.level == S1 && s'.off == s.off
      && s.log + [if s.Held() then Resume(s.now) else DeepSleep(s.now)] <= s'.log
  {
    hide ApplyAll;
    var s0 := s.(level := S3, log := s.log + [DeepSleep(s.now)]);
    ApplyAllLevel(s0, env.onSleep);
    ApplyAllExtends(s0, env.onSleep);
    var s1 := if s.Held() then s else ApplyAll(s0, env.onSleep);
    var s2 := s1.(level := S1, log := s1.log + [Resume(s1.now)]);
    ApplyAllLevel(s2, env.onResume);
    ApplyAllExtends(s2, env.onResume);
  }

  lemma TakeLocal(s: Sys, k: Kind)
    ensures var s' := WakeLock(s, k); s'.level == s.level && s'.off == s.off && s.log <= s'.log
  {
  }

  lemma ReleaseLocal(s: Sys, k: Kind)
    ensures var s' := WakeUnlock(s, k);
      && s'.level == s.level && s'.off == s.off && s.log <= s'.log
      && (!s'.halted ==> FreeTime(s', k) == 0)
  {
    if !s.halted && s.Get(k).refs != 0 {
      ElapsedSound(s.now, s.now);
    }
  }

  /** Both locks are free and have been for longer than the idle time, but not for the power-off time. */
  predicate LongIdle(s: Sys) {
    && s.partial.refs == 0 && s.full.refs == 0
    && FreeTime(s, Partial) > s.idle && s.idle < FreeTime(s, Full) <= s.offTime
  }

  function Later(s: Sys, ms: nat): Sys { s.(now := s.now + ms) }

  /**
    With both locks idle for long enough at each of three ticks, however far
    apart, and nobody objecting to the suspend, the third one goes to deep sleep.
  */
  lemma IdleReachesDeepSleep(s: Sys, e1: Env, a: nat, e2: Env, b: nat, e3: Env)
    requires s.level == Normal && !s.halted && !s.off
    requires e1.onEarly == [] && (s.deep ==> e2.onApp == [] && e2.onService == [])
    requires LongIdle(s) && LongIdle(Later(s, a)) && LongIdle(Later(s, a + b))
    ensures var t := Run(s, [Work(e1), Pass(a), Work(e2), Pass(b), Work(e3)]);
      var early, suspend := Early(s.now, false, s.idle), Suspend(s.now + a, false, s.idle);
      s.log + [early, suspend, DeepSleep(s.now + a + b)] <= t.log
  {
    hide ApplyAll, FreeTime, Tick, Run;
    RunFive(s, Work(e1), Pass(a), Work(e2), Pass(b), Work(e3));
    IdleNormal(s, e1);
    var early := Early(s.now, false, s.idle);
    var s1 := Later(s.(level := S1, log := s.log + [early]), a);
    SameFreeTime(Later(s, a), s1);
    IdleS1(s1, e2);
    var suspend := Suspend(s1.now, false, s.idle);
    var s2 := Later(s1.(level := S2, log := s1.log + [suspend]), b);
    SameFreeTime(Later(s, a + b), s2);
    WakesTo(s2, e3);
    assert s2.log + [DeepSleep(s2.now)] == s.log + [early, suspend, DeepSleep(s2.now)];
  }

  /**
    The whole way from boot: the boot lock is released, the times and the mode
    are set, and with nobody objecting three ticks lead to deep sleep, each with
    the idle time that was set.
  */
  lemma BootReachesDeepSleep(
    t: nat, idle0: nat, off0: nat, i: nat, o: nat, deep: bool, e1: Env, a: nat, e2: Env, b: nat, e3: Env)
    requires i + 1 + a + b <= o < WRAP && e1.onEarly == [] && (deep ==> e2.onApp == [] && e2.onService == [])
    ensures
      var setUp := [Locks(UnlockOp(Full)), SetIdle(i), SetOff(o), SetDeep(deep), Pass(i + 1)];
      var s := Run(Boot(t, idle0, off0), setUp + [Work(e1), Pass(a), Work(e2), Pass(b), Work(e3)]);
      var u := t + i + 1;
      [Take(t, Full), Release(t, Full), Early(u, false, i), Suspend(u + a, false, i), DeepSleep(u + a + b)] <= s.log
    ensures Boot(t, idle0, off0).deep
  {
    hide Run;
    var boot := Boot(t, idle0, off0);
    var setUp := [Locks(UnlockOp(Full)), SetIdle(i), SetOff(o), SetDeep(deep), Pass(i + 1)];
    var five := [Work(e1), Pass(a), Work(e2), Pass(b), Work(e3)];
    RunMore(boot, setUp, five);
    RunFive(boot, Locks(UnlockOp(Full)), SetIdle(i), SetOff(o), SetDeep(deep), Pass(i + 1));
    var s := Run(boot, setUp);
    assert boot.log == [Take(t, Full)];
    assert s.log == [Take(t, Full), Release(t, Full)] && s.now == t + i + 1 && s.idle == i && s.offTime == o;
    assert s.partial == s.full == Lock(0, t % WRAP);
    hide Step, Boot;
    IdleSince(s, t);
    IdleSince(Later(s, a), t);
    IdleSince(Later(s, a + b), t);
    IdleReachesDeepSleep(s, e1, a, e2, b, e3);
  }

  lemma IdleSince(s: Sys, since: nat)
    requires s.partial == s.full == Lock(0, since % WRAP) && since + s.idle < s.now <= since + s.offTime < since + WRAP
    ensures LongIdle(s)
  {
    hide FreeTime;
    FreeFor(s, Partial, since);
    FreeFor(s, Full, since);
  }

  lemma {:induction false} RunMore(s: Sys, a: seq<Event>, b: seq<Event>)
    ensures Run(s, a + b) == Run(Run(s, a), b)
    decreases |a|
  {
    hide Step;
    if a == [] {
      assert a + b == b;
    } else {
      assert (a + b)[1..] == a[1..] + b;
      RunMore(Step(s, a[0]), a[1..], b);
    }
  }

  lemma IdleNormal(s: Sys, env: Env)
    requires s.level == Normal && !s.halted && !s.off && LongIdle(s) && env.onEarly == []
    ensures Tick(s, env) == s.(level := S1, log := s.log + [Early(s.now, false, s.idle)])
  {
    hide ApplyAll, FreeTime;
    NoOps(s.(level := S1, log := s.log + [Early(s.now, false, s.idle)]));
  }

  lemma IdleS1(s: Sys, env: Env)
    requires s.level == S1 && !s.halted && !s.off && LongIdle(s) && (s.deep ==> env.onApp == [] && env.onService == [])
    ensures Tick(s, env) == s.(level := S2, log := s.log + [Suspend(s.now, false, s.idle)])
  {
    hide ApplyAll, FreeTime;
    NoOps(s.(level := S2, log := s.log + [Suspend(s.now, false, s.idle)]));
  }

  lemma RunFive(s: Sys, a: Event, b: Event, c: Event, d: Event, e: Event)
    ensures Run(s, [a, b, c, d, e]) == Step(Step(Step(Step(Step(s, a), b), c), d), e)
  {
    hide Step;
    var s1 := Step(s, a);
    var s2 := Step(s1, b);
    var s3 := Step(s2, c);
    var s4 := Step(s3, d);
    assert [a, b, c, d, e][1..] == [b, c, d, e] && [b, c, d, e][1..] == [c, d, e];
    assert [c, d, e][1..] == [d, e] && [d, e][1..] == [e] && [e][1..] == [];
    assert Run(s4, [e]) == Run(Step(s4, e), []);
    assert Run(s3, [d, e]) == Run(s4, [e]);
    assert Run(s2, [c, d, e]) == Run(s3, [d, e]);
  }

  lemma SameFreeTime(s: Sys, s': Sys)
    requires s'.now == s.now && s'.partial == s.partial && s'.full == s.full
    ensures forall k :: FreeTime(s', k) == FreeTime(s, k)
  {
  }

  lemma NoOps(s: Sys)
    ensures ApplyAll(s, []) == s
  {
  }
}
