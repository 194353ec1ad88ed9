/** The standby context and the wake lock table as the firmware keeps them, updated in place by each call. */
module StandbyManager {
  import opened Basics
  import opened S = Standby

  class PowerManager {
    const locks: array<Lock>
    var now: nat
    var level: Level
    var idle: nat
    var offTime: nat
    var off: bool
    var force: bool
    var deep: bool
    var halted: bool
    ghost var log: seq<Act>

    ghost predicate Valid()
      reads this
    {
      locks.Length == 2
    }

    ghost function View(): Sys
      requires Valid()
      reads this, locks
    {
      Sys(now, locks[0], locks[1], level, idle, offTime, off, force, deep, halted, log)
    }

    static function Index(k: Kind): nat { if k == Partial then 0 else 1 }

    /** sys_standby_init and sys_wakelocks_init. */
    constructor (t: nat, idle: nat, offTime: nat)
      ensures Valid() && fresh(locks) && View() == Boot(t, idle, offTime)
    {
      locks := new Lock[2](_ => Lock(0, t % WRAP));
      now, level, this.idle, this.offTime := t, Normal, idle, offTime;
      off, force, deep, halted, log := false, false, true, false, [];
      new;
      TakeLock(Full);
    }

    /** sys_wake_lock. */
    method TakeLock(k: Kind)
      requires Valid()
      modifies this, locks
      ensures Valid() && View() == WakeLock(old(View()), k)
    {
      if halted { return; }
      var i := Index(k);
      if locks[i].refs >= 0xFFFF {
        halted := true;
        return;
      }
      locks[i] := Lock(locks[i].refs + 1, 0);
      log := log + [Take(now, k)];
    }

    /** sys_wake_unlock, with its loop over all locks when the full one is released. */
    method ReleaseLock(k: Kind)
      requires Valid()
      modifies this, locks
      ensures Valid() && View() == WakeUnlock(old(View()), k)
    {
      if halted { return; }
      var i := Index(k);
      if locks[i].refs == 0 {
        halted := true;
        return;
      }
      locks[i] := locks[i].(refs := locks[i].refs - 1);
      ghost var before := locks[..];
      if k == Full {
        for j := 0 to locks.Length
          invariant forall n :: 0 <= n < locks.Length ==>
            locks[n] == if n < j then before[n].(stamp := now % WRAP) else before[n]
          modifies locks
        {
          locks[j] := locks[j].(stamp := now % WRAP);
        }
      } else {
        locks[i] := locks[i].(stamp := now % WRAP);
      }
      force := false;
      log := log + [Release(now, k)];
    }

    method Perform(op: Op)
      requires Valid()
      modifies this, locks
      ensures Valid() && View() == Apply(old(View()), op)
    {
      hide WakeLock, WakeUnlock;
      match op {
        case LockOp(k) => TakeLock(k);
        case UnlockOp(k) => ReleaseLock(k);
        case ResetOp(k) => TakeLock(k); ReleaseLock(k);
        case Wait(ms) => now := now + ms;
      }
    }

    /** What other code does to the locks while the machine waits for it. */
    method PerformAll(ops: seq<Op>)
      requires Valid()
      modifies this, locks
      ensures Valid() && View() == ApplyAll(old(View()), ops)
    {
      hide Apply;
      for j := 0 to |ops|
        invariant Valid() && ApplyAll(View(), ops[j..]) == ApplyAll(old(View()), ops)
      {
        Perform(ops[j]);
        assert ops[j..][1..] == ops[j + 1..];
      }
    }

    /** sys_wakelocks_get_free_time. */
    method GetFreeTime(k: Kind) returns (ms: nat)
      requires Valid()
      ensures ms == FreeTime(View(), k)
    {
      var l := locks[Index(k)];
      ms := 0;
      if l.refs == 0 { ms := (now - l.stamp) % WRAP; }
    }

    method FallBack()
      requires Valid()
      modifies this`level
      ensures View() == BackIfHeld(old(View()))
    {
      if locks[0].refs != 0 || locks[1].refs != 0 { level := S1; }
    }

    /** _sys_standby_enter_s1. */
    method DoEnterS1(ghost forced: bool, env: Env)
      requires Valid()
      modifies this, locks
      ensures Valid() && View() == EnterS1(old(View()), forced, env)
    {
      hide ApplyAll;
      level := S1;
      log := log + [Early(now, forced, idle)];
      PerformAll(env.onEarly);
    }

    /** _sys_standby_exit_s1. */
    method DoExitS1(env: Env)
      requires Valid()
      modifies this, locks
      ensures Valid() && View() == ExitS1(old(View()), env)
    {
      hide ApplyAll;
      level := Normal;
      log := log + [Late(now)];
      PerformAll(env.onLate);
    }

    /** _sys_standby_enter_s2. */
    method DoEnterS2(forced: bool, env: Env)
      requires Valid()
      modifies this, locks
      ensures Valid() && View() == EnterS2(old(View()), forced, env)
    {
      hide ApplyAll;
      level := S2;
      log := log + [Suspend(now, forced, idle)];
      if deep {
        PerformAll(env.onApp);
        FallBack();
        PerformAll(env.onService);
        FallBack();
      }
    }

    /** _sys_standby_process_s1. */
    method DoProcessS1(env: Env)
      requires Valid()
      modifies this, locks
      ensures Valid() && View() == ProcessS1(old(View()), env)
    {
      hide EnterS2, ExitS1;
      if locks[1].refs != 0 {
        DoExitS1(env);
        return;
      }
      var fullFree := GetFreeTime(Full);
      var partialFree := GetFreeTime(Partial);
      if fullFree < idle {
        if !force { DoExitS1(env); }
      } else if partialFree > idle {
        if locks[0].refs == 0 { DoEnterS2(false, env); }
      } else if force {
        if locks[0].refs == 0 { DoEnterS2(true, env); }
      }
    }

    /** _sys_standby_process_s2: the wait loop leaves after one round. */
    method DoProcessS2(env: Env)
      requires Valid()
      modifies this, locks
      ensures Valid() && View() == ProcessS2(old(View()), env)
    {
      hide ApplyAll, ExitS1, WakeLock, WakeUnlock;
      force := false;
      var awake := false;
      ghost var start := View();
      while !awake
        invariant Valid()
        invariant !awake ==> View() == start
        invariant awake ==> View() == SleepOnce(start, env)
        decreases !awake
      {
        if locks[0].refs == 0 && locks[1].refs == 0 {
          level := S3;
          log := log + [DeepSleep(now)];
          PerformAll(env.onSleep);
        }
        level := S1;
        log := log + [Resume(now)];
        PerformAll(env.onResume);
        awake := true;
      }
      if env.fired { off := true; }
      if off { return; }
      if !env.byBt {
        TakeLock(Full);
        DoExitS1(env);
        ReleaseLock(Full);
      } else {
        TakeLock(Partial);
        ReleaseLock(Partial);
      }
    }

    /** _sys_standby_work_handle. */
    method WorkHandle(env: Env)
      requires Valid()
      modifies this, locks
      ensures Valid() && View() == Tick(old(View()), env)
    {
      hide EnterS1, ProcessS1, ProcessS2;
      if halted || off { return; }
      var partialFree := GetFreeTime(Partial);
      var fullFree := GetFreeTime(Full);
      if partialFree > offTime && fullFree > offTime {
        off := true;
        log := log + [PowerOff(now, offTime)];
        return;
      }
      match level {
        case Normal =>
          if locks[1].refs == 0 && (force || fullFree > idle) { DoEnterS1(fullFree <= idle, env); }
        case S1 => DoProcessS1(env);
        case S2 => DoProcessS2(env);
        case S3 =>
      }
    }
  }
}
