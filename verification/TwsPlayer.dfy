/** One bud's rate control with its fields updated in place, proved against the functions of TwsAps. */
module TwsPlayer {
  import opened Basics
  import opened TwsAps

  /** `adjustTime` and `lastCheckTime` are 32-bit; the ghost fields are the times they stand for. */
  class Player {
    const cfg: Config
    var currentLevel: int
    var destLevel: int
    var sampleAligning: bool
    var alignTimer: int
    var checkCount: int
    var adjustTime: nat
    var lastCheckTime: nat
    var maxLatency: int
    var queue: seq<int>
    ghost var adjustAt: nat
    ghost var lastCheckAt: nat
    ghost var seen: seq<int>

    ghost predicate Valid()
      reads this
    {
      cfg.Ok() && adjustTime == adjustAt % WRAP && lastCheckTime == lastCheckAt % WRAP
    }

    ghost function View(): Bud
      reads this
    {
      Bud(currentLevel, destLevel, sampleAligning, alignTimer, checkCount, adjustAt, lastCheckAt, maxLatency, seen,
          queue)
    }

    constructor (cfg: Config)
      requires cfg.Ok()
      ensures Valid() && this.cfg == cfg
      ensures View() == Fresh(cfg) && BudOk(View()) && CheckOk(View(), 0)
    {
      this.cfg := cfg;
      currentLevel, destLevel, sampleAligning, alignTimer := cfg.base, cfg.base, false, 0;
      checkCount, adjustTime, lastCheckTime, maxLatency, queue := 0, 0, 0, 0, [];
      adjustAt, lastCheckAt, seen := 0, 0, [];
    }

    method StopAligning()
      requires Valid()
      modifies this
      ensures Valid() && View() == TwsAps.StopAligning(old(View()))
    {
      if !sampleAligning { return; }
      currentLevel := destLevel;
      sampleAligning := false;
    }

    method StartAligning(level: int, time: int)
      requires Valid()
      modifies this
      ensures Valid() && View() == old(View()).(current := level, aligning := true, timer := time)
      ensures TwsAps.StopAligning(View()).current == destLevel == old(destLevel)
      ensures old(BudOk(View())) && Abs(level - destLevel) == 1 && 1 <= time <= 9930 ==> BudOk(View())
    {
      currentLevel := level;
      sampleAligning := true;
      alignTimer := time;
    }

    method SetBaseLevel(requested: int)
      requires Valid()
      modifies this
      ensures Valid() && View() == SetBase(cfg, old(View()), requested)
    {
      if destLevel == requested { return; }
      var level := requested;
      if level == NO_CHANGE { level := cfg.base; }
      currentLevel := level;
      destLevel := level;
      StopAligning();
    }

    method NotifyTimeDiff(diff: int)
      requires Valid()
      modifies this
      ensures Valid() && View() == NotifyDiff(cfg, old(View()), diff)
    {
      hide StepTime;
      if Abs(diff) > 3000 { return; }
      StopAligning();
      if Abs(diff) < 3 { return; }
      var level, time;
      if diff < 0 {
        level := (destLevel + 1) % 256;
        time := StepTime(cfg, destLevel, true) * Abs(diff) / 1000;
      } else {
        level := (destLevel - 1) % 256;
        time := StepTime(cfg, destLevel, false) * Abs(diff) / 1000;
      }
      StartAligning(level, time);
    }

    /** The level the rate aims at, before it is clamped to [lo, hi]. */
    method AimLevel(pcm: int, ghost tws: bool, trim: bool, lo: int, hi: int, waited: nat) returns (adj: int)
      requires trim == Trimmed(cfg, currentLevel, pcm)
      requires lo == MinLevel(cfg, currentLevel, pcm, tws) && hi == MaxLevel(cfg, currentLevel, pcm, tws)
      ensures adj == Aim(cfg, currentLevel, pcm, tws, checkCount, waited)
    {
      adj := currentLevel;
      if waited < 220 { return; }
      if checkCount >= 2 { adj := adj + 1; return; }
      if checkCount <= -2 {
        if adj > 0 { adj := adj - 1; }
        return;
      }
      if pcm > cfg.target {
        adj := adj + 1;
      } else if pcm < cfg.target {
        if adj > 0 { adj := adj - 1; }
      }
      if waited < 600 {
        if trim {
          adj := currentLevel;
        } else if !((currentLevel == hi && adj < hi) || (currentLevel == lo && adj > lo)) {
          adj := currentLevel;
        }
      }
    }

    method LevelBounds(pcm: int, tws: bool) returns (lo: int, hi: int, trim: bool)
      ensures trim == Trimmed(cfg, currentLevel, pcm)
      ensures lo == MinLevel(cfg, currentLevel, pcm, tws) && hi == MaxLevel(cfg, currentLevel, pcm, tws)
    {
      lo, hi, trim := LEVEL_1, LEVEL_8, false;
      if tws { lo, hi := lo + 1, hi - 1; }
      if Abs(pcm - cfg.target) <= 1000 {
        if currentLevel >= cfg.base - 1 && currentLevel <= cfg.base + 1 {
          lo, hi, trim := cfg.base - 1, cfg.base + 1, true;
        }
      }
    }

    method CountCheck(pcm: int)
      requires Valid()
      modifies `checkCount
      ensures Valid() && View() == old(View()).(check := Count(cfg, old(checkCount), pcm))
    {
      if pcm > cfg.target && checkCount < 2 {
        checkCount := checkCount + 1;
      } else if pcm < cfg.target && checkCount > -2 {
        checkCount := checkCount - 1;
      }
    }

    method MonitorRate(pcm: int, tws: bool, now: nat) returns (r: Option<int>)
      requires Valid()
      modifies `checkCount, `adjustTime, `adjustAt
      ensures Valid()
      ensures r == Monitor(cfg, currentLevel, pcm, tws, old(checkCount), Elapsed(now, old(adjustAt)))
      ensures View() == if r.Some? then old(View()).(check := 0, adjust := now)
        else old(View()).(check := Count(cfg, old(checkCount), pcm))
    {
      hide MinLevel, MaxLevel, Count, Aim, Trimmed;
      var waited := (now % WRAP - adjustTime) % WRAP;
      assert waited == Elapsed(now, adjustAt);
      var lo, hi, trim := LevelBounds(pcm, tws);
      CountCheck(pcm);
      var adj := AimLevel(pcm, tws, trim, lo, hi, waited);
      if adj > hi { adj := hi; }
      if adj < lo { adj := lo; }
      if adj == currentLevel { return None; }
      if currentLevel < cfg.base && adj > currentLevel { adj := cfg.base; }
      if currentLevel > cfg.base && adj < currentLevel { adj := cfg.base; }
      adjustTime, adjustAt := now % WRAP, now;
      checkCount := 0;
      return Some(adj);
    }

    /** audio_aps_monitor_master; `r` is the request sent to both buds. */
    method MonitorMaster(pcm: int, role: Role, now: nat) returns (r: Option<int>)
      requires Valid()
      modifies `checkCount, `adjustTime, `adjustAt, `lastCheckTime, `lastCheckAt, `maxLatency, `seen
      ensures Valid() && (View(), r) == LookOne(cfg, now, old(View()), pcm, role)
    {
      hide Monitor, Count;
      r := None;
      if maxLatency < pcm { maxLatency := pcm; }
      seen := seen + [pcm];
      if (now % WRAP - lastCheckTime) % WRAP >= 300 {
        if role != Slave {
          r := MonitorRate(maxLatency, role == Master, now);
        } else if (now % WRAP - adjustTime) % WRAP >= 3000 {
          adjustTime, adjustAt := now % WRAP, now;
        }
        lastCheckTime, lastCheckAt := now % WRAP, now;
        maxLatency, seen := 0, [];
      }
    }
  }
}
