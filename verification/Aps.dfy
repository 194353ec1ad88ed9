/**
  Playback-rate control of a single device: a hysteresis between two water
  marks, and the running average the low-latency mode and the recorder keep.
*/
module Aps {
  import opened Basics

  datatype Status = Dec | Inc | Default

  /** Water marks and levels, fixed while a stream plays. */
  datatype Marks = Marks(increase: nat, reduce: nat, min: nat, max: nat, base: nat)
  {
    predicate Ok() { reduce <= increase < WRAP && min <= base <= max }

    /** The middle of the band, in 32-bit arithmetic. */
    function Mid(): nat { (increase - (increase - reduce) % WRAP / 2) % WRAP }
  }

  datatype Ctl = Ctl(status: Status, current: nat, dest: nat)

  datatype Opr = Set | Adjust | FastSet

  /** audio_aps_monitor_set_aps: the current level moves one step in the same call. */
  function SetAps(c: Ctl, opr: Opr, level: nat): Ctl {
    var dest := if opr == Adjust then c.dest else level;
    var current := if opr == FastSet then level else c.current;
    c.(dest := dest, current := if current > dest then current - 1 else if current < dest then current + 1 else current)
  }

  /** The signed buffered time is compared as an unsigned number. */
  function Unsigned(x: int): nat { x % WRAP }

  /** audio_aps_monitor_normal without the fine adjustment. */
  function Tick(m: Marks, c: Ctl, len: int): Ctl {
    var u := Unsigned(len);
    match c.status
    case Default =>
      if u > m.increase then SetAps(c, FastSet, m.max).(status := Inc)
      else if u < m.reduce then SetAps(c, FastSet, m.min).(status := Dec)
      else SetAps(c, Adjust, 0)
    case Inc =>
      if u < m.reduce then SetAps(c, FastSet, m.min).(status := Dec)
      else if u <= m.Mid() then SetAps(c, Set, m.base).(status := Default)
      else SetAps(c, Adjust, 0)
    case Dec =>
      if u > m.increase then SetAps(c, FastSet, m.max).(status := Inc)
      else if u >= m.Mid() then SetAps(c, Set, m.base).(status := Default)
      else SetAps(c, Adjust, 0)
  }

  function Run(m: Marks, c: Ctl, lens: seq<int>): Ctl
    decreases |lens|
  {
    if lens == [] then c else Run(m, Tick(m, c, lens[0]), lens[1..])
  }

  // ----- what every tick keeps -----

  predicate Ok(m: Marks, c: Ctl) {
    && m.min <= c.current <= m.max
    && (c.status == Inc ==> c.current == c.dest == m.max)
    && (c.status == Dec ==> c.current == c.dest == m.min)
    && (c.status == Default ==> c.dest == m.base)
  }

  /** In every run the status says which level is played, or is being approached. */
  lemma {:induction false} RunKeeps(m: Marks, c: Ctl, lens: seq<int>)
    requires m.Ok() && Ok(m, c)
    ensures Ok(m, Run(m, c, lens))
    decreases |lens|
  {
    if lens != [] { RunKeeps(m, Tick(m, c, lens[0]), lens[1..]); }
  }

  /**
    Which status a tick ends in: above the upper mark fast, below the lower one
    slow, and in between the default once the middle is reached.
  */
  lemma TickStatus(m: Marks, c: Ctl, len: int)
    requires m.Ok()
    ensures var u, s := Unsigned(len), Tick(m, c, len).status;
      && (s == Inc <==> u > m.increase || (c.status == Inc && 2 * u > m.increase + m.reduce + 1))
      && (s == Dec <==> u < m.reduce || (c.status == Dec && 2 * u < m.increase + m.reduce))
  {
    assert m.Mid() == m.increase - (m.increase - m.reduce) / 2;
  }

  // ----- convergence -----

  predicate InBand(m: Marks, len: int) { m.reduce <= Unsigned(len) <= m.increase }

  function Distance(a: nat, b: nat): nat { if a < b then b - a else a - b }

  /** While the buffer stays in the band the distance to the default level falls by one each tick, to zero. */
  lemma {:induction false} Converges(m: Marks, c: Ctl, lens: seq<int>)
    requires m.Ok() && Ok(m, c) && c.status == Default
    requires forall k :: 0 <= k < |lens| ==> InBand(m, lens[k])
    ensures var d := Distance(c.current, m.base);
      && Run(m, c, lens).status == Default
      && Distance(Run(m, c, lens).current, m.base) == if |lens| < d then d - |lens| else 0
    decreases |lens|
  {
    if lens != [] {
      assert InBand(m, lens[0]);
      Converges(m, Tick(m, c, lens[0]), lens[1..]);
    }
  }

  /** Only the extreme levels are set at once; on the way back to the default the level moves by single steps. */
  lemma TickSteps(m: Marks, c: Ctl, len: int)
    requires m.Ok() && Ok(m, c) && Tick(m, c, len).status == Default
    ensures var d := Distance(c.current, m.base);
      Distance(Tick(m, c, len).current, m.base) == if d == 0 then 0 else d - 1
  {
  }

  // ----- hysteresis -----

  ghost predicate Has(lens: seq<int>, lo: int, hi: int) {
    exists k :: 0 <= k < |lens| && lo <= Unsigned(lens[k]) <= hi
  }

  lemma Shift(lens: seq<int>, lo: int, hi: int)
    requires lens != [] && (lo <= Unsigned(lens[0]) <= hi || Has(lens[1..], lo, hi))
    ensures Has(lens, lo, hi)
  {
    if !(lo <= Unsigned(lens[0]) <= hi) {
      var k :| 0 <= k < |lens[1..]| && lo <= Unsigned(lens[1..][k]) <= hi;
      assert lens[k + 1] == lens[1..][k];
    }
  }

  /** A run that leaves the fast status saw the buffer at or below the middle. */
  lemma {:induction false} LeavesInc(m: Marks, c: Ctl, lens: seq<int>)
    requires m.Ok() && c.status == Inc && Run(m, c, lens).status != Inc
    ensures Has(lens, 0, m.Mid())
    decreases |lens|
  {
    if 0 <= Unsigned(lens[0]) <= m.Mid() {
    } else {
      LeavesInc(m, Tick(m, c, lens[0]), lens[1..]);
    }
    Shift(lens, 0, m.Mid());
  }

  /** A run that enters it saw the buffer above the upper mark. */
  lemma {:induction false} EntersInc(m: Marks, c: Ctl, lens: seq<int>)
    requires m.Ok() && c.status != Inc && Run(m, c, lens).status == Inc
    ensures Has(lens, m.increase + 1, WRAP)
    decreases |lens|
  {
    if Unsigned(lens[0]) <= m.increase {
      EntersInc(m, Tick(m, c, lens[0]), lens[1..]);
    }
    Shift(lens, m.increase + 1, WRAP);
  }

  lemma {:induction false} LeavesDec(m: Marks, c: Ctl, lens: seq<int>)
    requires m.Ok() && c.status == Dec && Run(m, c, lens).status != Dec
    ensures Has(lens, m.Mid(), WRAP)
    decreases |lens|
  {
    if Unsigned(lens[0]) < m.Mid() {
      LeavesDec(m, Tick(m, c, lens[0]), lens[1..]);
    }
    Shift(lens, m.Mid(), WRAP);
  }

  lemma {:induction false} EntersDec(m: Marks, c: Ctl, lens: seq<int>)
    requires m.Ok() && c.status != Dec && Run(m, c, lens).status == Dec
    ensures Has(lens, 0, m.reduce - 1)
    decreases |lens|
  {
    if Unsigned(lens[0]) >= m.reduce {
      EntersDec(m, Tick(m, c, lens[0]), lens[1..]);
    }
    Shift(lens, 0, m.reduce - 1);
  }

  /** Some buffered time in `ys` lies more than `swing` above some buffered time in `xs`. */
  ghost predicate Rises(xs: seq<int>, ys: seq<int>, swing: int) {
    exists i, j :: 0 <= i < |xs| && 0 <= j < |ys| && Unsigned(ys[j]) - Unsigned(xs[i]) > swing
  }

  /**
    No chatter: to leave an extreme status and come back to it the buffered time
    must swing by more than half the band, whatever happens in between.
  */
  lemma Hysteresis(m: Marks, c: Ctl, xs: seq<int>, ys: seq<int>)
    requires m.Ok() && Run(m, c, xs).status != c.status && Run(m, Run(m, c, xs), ys).status == c.status
    ensures c.status == Inc ==> Rises(xs, ys, (m.increase - m.reduce) / 2)
    ensures c.status == Dec ==> Rises(ys, xs, (m.increase - m.reduce) / 2)
  {
    hide Run, Tick;
    var d := Run(m, c, xs);
    assert m.Mid() == m.increase - (m.increase - m.reduce) / 2;
    if c.status == Inc {
      LeavesInc(m, c, xs);
      EntersInc(m, d, ys);
      var i :| 0 <= i < |xs| && 0 <= Unsigned(xs[i]) <= m.Mid();
      var j :| 0 <= j < |ys| && m.increase + 1 <= Unsigned(ys[j]) <= WRAP;
    } else if c.status == Dec {
      LeavesDec(m, c, xs);
      EntersDec(m, d, ys);
      var i :| 0 <= i < |xs| && m.Mid() <= Unsigned(xs[i]) <= WRAP;
      var j :| 0 <= j < |ys| && 0 <= Unsigned(ys[j]) <= m.reduce - 1;
    }
  }

  /** The bound is met: one microsecond more than half the band is enough to leave the fast status and return. */
  lemma HysteresisTight(m: Marks, c: Ctl)
    requires m.Ok() && c.status == Inc && m.increase + 1 < WRAP
    ensures m.increase + 1 - m.Mid() == (m.increase - m.reduce) / 2 + 1
    ensures Run(m, c, [m.Mid()]).status == Default
    ensures Run(m, Run(m, c, [m.Mid()]), [m.increase + 1]).status == Inc
  {
    var d := Tick(m, c, m.Mid());
    assert Run(m, c, [m.Mid()]) == Run(m, d, []);
    assert Run(m, d, [m.increase + 1]) == Run(m, Tick(m, d, m.increase + 1), []);
  }

  // ----- the running average -----

  /** Division by sixteen, truncated toward zero. */
  function Sixteenth(x: int): int { if x >= 0 then x / 16 else -(-x / 16) }

  datatype Mean = Mean(avg: int, left: int)

  function Average(a: Mean, len: int): Mean {
    var t := a.avg * 15 + len + a.left;
    Mean(Sixteenth(t), t - Sixteenth(t) * 16)
  }

  function AverageAll(a: Mean, lens: seq<int>): Mean
    decreases |lens|
  {
    if lens == [] then a else AverageAll(Average(a, lens[0]), lens[1..])
  }

  function Sum(xs: seq<int>): int { if xs == [] then 0 else xs[0] + Sum(xs[1..]) }

  /** The averages before each input. */
  function Averages(a: Mean, lens: seq<int>): seq<int>
    decreases |lens|
  {
    if lens == [] then [] else [a.avg] + Averages(Average(a, lens[0]), lens[1..])
  }

  /** The remainder is less than a sixteenth and on the average's own side of zero. */
  predicate MeanOk(a: Mean) {
    -16 < a.left < 16 && (a.avg > 0 ==> a.left >= 0) && (a.avg < 0 ==> a.left <= 0)
  }

  lemma AverageOnce(a: Mean, len: int, lo: int, hi: int)
    requires MeanOk(a) && lo <= a.avg <= hi && lo <= len <= hi
    ensures MeanOk(Average(a, len)) && lo <= Average(a, len).avg <= hi
  {
  }

  /**
    Nothing is lost and nothing is made up: over any run sixteen times the
    average plus the remainder changes by the inputs less the previous averages,
    and any interval that holds the inputs and the first average holds every
    average after them.
  */
  lemma {:induction false} AverageConserves(a: Mean, lens: seq<int>, lo: int, hi: int)
    requires MeanOk(a) && lo <= a.avg <= hi && forall k :: 0 <= k < |lens| ==> lo <= lens[k] <= hi
    ensures var b := AverageAll(a, lens);
      && 16 * b.avg + b.left - (16 * a.avg + a.left) == Sum(lens) - Sum(Averages(a, lens))
      && MeanOk(b) && lo <= b.avg <= hi
    decreases |lens|
  {
    if lens != [] {
      var b := Average(a, lens[0]);
      AverageOnce(a, lens[0], lo, hi);
      AverageConserves(b, lens[1..], lo, hi);
      assert Averages(a, lens)[1..] == Averages(b, lens[1..]);
    }
  }

  // ----- the controller, updated in place -----

  class Monitor {
    const marks: Marks
    var apsStatus: Status
    var currentLevel: nat
    var destLevel: nat

    ghost function View(): Ctl
      reads this
    {
      Ctl(apsStatus, currentLevel, destLevel)
    }

    ghost predicate Valid()
      reads this
    {
      marks.Ok() && Ok(marks, View())
    }

    constructor (marks: Marks)
      requires marks.Ok()
      ensures Valid() && this.marks == marks && View() == Ctl(Default, marks.base, marks.base)
    {
      this.marks := marks;
      apsStatus, currentLevel, destLevel := Default, marks.base, marks.base;
    }

    method MonitorSetAps(opr: Opr, level: nat)
      modifies `currentLevel, `destLevel
      ensures View() == SetAps(old(View()), opr, level)
    {
      if opr == Set { destLevel := level; }
      if opr == FastSet { destLevel := level; currentLevel := level; }
      if currentLevel > destLevel { currentLevel := currentLevel - 1; }
      else if currentLevel < destLevel { currentLevel := currentLevel + 1; }
    }

    method MonitorNormal(len: int)
      requires Valid()
      modifies this
      ensures Valid() && View() == Tick(marks, old(View()), len)
    {
      RunKeeps(marks, View(), [len]);
      assert Run(marks, View(), [len]) == Tick(marks, View(), len);
      var u := Unsigned(len);
      var mid := marks.Mid();
      match apsStatus {
        case Default =>
          if u > marks.increase {
            MonitorSetAps(FastSet, marks.max);
            apsStatus := Inc;
          } else if u < marks.reduce {
            MonitorSetAps(FastSet, marks.min);
            apsStatus := Dec;
          } else {
            MonitorSetAps(Adjust, 0);
          }
        case Inc =>
          if u < marks.reduce {
            MonitorSetAps(FastSet, marks.min);
            apsStatus := Dec;
          } else if u <= mid {
            MonitorSetAps(Set, marks.base);
            apsStatus := Default;
          } else {
            MonitorSetAps(Adjust, 0);
          }
        case Dec =>
          if u > marks.increase {
            MonitorSetAps(FastSet, marks.max);
            apsStatus := Inc;
          } else if u >= mid {
            MonitorSetAps(Set, marks.base);
            apsStatus := Default;
          } else {
            MonitorSetAps(Adjust, 0);
          }
      }
    }
  }

  /** audio_aps_get_average, step by step. */
  method GetAverage(average: int, averageLeft: int, len: int) returns (a: int, left: int)
    ensures Mean(a, left) == Average(Mean(average, averageLeft), len)
  {
    a := average * 15 + len + averageLeft;
    left := a - Sixteenth(a) * 16;
    a := Sixteenth(a);
  }
}
