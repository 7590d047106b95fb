/**
  The two schedulers: the GUI's `_scheduler_loop` and the background
  service's `run_service`.  Each pass of their endless loops is a transition
  on the loop's own state (the GUI's `scheduled_backups` dictionary, the
  service's `next_backup_time`), with the clock readings and the backup's
  outcome as inputs.  Clock values are whole seconds.
*/
module Scheduling {
  import opened Wrappers
  import opened BackupNames

  // ---------------------------------------------------------------------------
  // Interval units

  datatype Unit = Minutes | Hours | Days

  /** The unit a setting names: "minutes", "hours", and anything else is days. */
  function UnitOf(unit: string): (u: Unit)
    ensures u == Minutes <==> unit == "minutes"
    ensures u == Hours <==> unit == "hours"
  {
    if unit == "minutes" then Minutes else if unit == "hours" then Hours else Days
  }

  function UnitSeconds(u: Unit): nat
  {
    match u
    case Minutes => 60
    case Hours => 3600
    case Days => 86400
  }

  /** `timedelta(minutes=interval)`, `timedelta(hours=interval)` or
      `timedelta(days=interval)`, in seconds. */
  function Duration(interval: int, unit: string): int
  {
    interval * UnitSeconds(UnitOf(unit))
  }

  /** The three units convert as a clock does, and every other unit name is days. */
  lemma DurationUnits(k: int, other: string)
    requires other != "minutes" && other != "hours"
    ensures Duration(k, "minutes") == 60 * k
    ensures Duration(60 * k, "minutes") == Duration(k, "hours")
    ensures Duration(24 * k, "hours") == Duration(k, other)
    ensures Duration(k, other) == Duration(k, "days")
  {
  }

  /** A duration has the sign of its interval. */
  lemma DurationSign(interval: int, unit: string)
    ensures Duration(interval, unit) > 0 <==> interval > 0
    ensures Duration(interval, unit) == 0 <==> interval == 0
  {
    var s := UnitSeconds(UnitOf(unit));
    if interval > 0 {
      assert interval * s >= s;
    } else if interval < 0 {
      assert (-interval) * s >= s;
    }
  }

  // ---------------------------------------------------------------------------
  // The GUI's settings key, `f"{interval}_{unit}"`

  /** `str(n)` for a natural number: its decimal digits. */
  function NatToString(n: nat): (s: string)
    ensures |s| > 0 && AllDigits(s) && Number(s) == n
    decreases n
  {
    if n < 10 then [DigitChar(n)]
    else
      var s := NatToString(n / 10) + [DigitChar(n % 10)];
      assert s[..|s| - 1] == NatToString(n / 10);
      s
  }

  /** `str(i)`: a minus sign before the digits of a negative number. */
  function IntToString(i: int): (s: string)
    ensures |s| > 0 && (forall k :: 0 <= k < |s| ==> s[k] == '-' || IsDigit(s[k]))
  {
    if i < 0 then "-" + NatToString(-i) else NatToString(i)
  }

  lemma IntToStringInjective(i: int, j: int)
    requires IntToString(i) == IntToString(j)
    ensures i == j
  {
    var s := IntToString(i);
    if i < 0 {
      assert s[0] == '-';
      assert j < 0;
      assert s[1..] == NatToString(-i) == NatToString(-j);
    } else {
      assert IsDigit(s[0]);
      assert j >= 0;
    }
  }

  function SettingsKey(interval: int, unit: string): string
  {
    IntToString(interval) + "_" + unit
  }

  /** Two settings share a key only when they are the same settings. */
  lemma SettingsKeyInjective(i1: int, u1: string, i2: int, u2: string)
    ensures SettingsKey(i1, u1) == SettingsKey(i2, u2) <==> i1 == i2 && u1 == u2
  {
    if SettingsKey(i1, u1) == SettingsKey(i2, u2) {
      var a, b := IntToString(i1), IntToString(i2);
      var key := SettingsKey(i1, u1);
      var key2 := SettingsKey(i2, u2);
      assert key[|a|] == '_' && key2[|b|] == '_';
      assert forall k :: 0 <= k < |b| ==> key2[k] == b[k] && key2[k] != '_';
      assert forall k :: 0 <= k < |a| ==> key[k] == a[k] && key[k] != '_';
      assert |a| == |b|;
      assert a == key[..|a|] == b;
      IntToStringInjective(i1, i2);
      assert u1 == key[|a| + 1..] == u2;
    }
  }

  // ---------------------------------------------------------------------------
  // One pass of the GUI's loop

  /** What the loop reads on one pass: the three scheduler settings and the clock. */
  datatype Reading = Reading(enabled: bool, interval: int, unit: string, now: int)

  datatype GuiStep = GuiStep(scheduled: map<string, int>, fired: bool)

  /** One pass.  Disabled: every entry is cleared.  Enabled: an unseen settings
      key is first given `now + interval`; when `now` has reached the entry a
      backup starts (in a thread of its own) and the entry moves to
      `now + interval`. */
  function GuiTick(scheduled: map<string, int>, r: Reading): (step: GuiStep)
    ensures !r.enabled ==> step.scheduled == map[] && !step.fired
    ensures r.enabled ==>
      var key := SettingsKey(r.interval, r.unit);
      var due := if key in scheduled then scheduled[key] else r.now + Duration(r.interval, r.unit);
      && (step.fired <==> r.now >= due)
      && step.scheduled.Keys == scheduled.Keys + {key}
      && step.scheduled[key] == (if step.fired then r.now + Duration(r.interval, r.unit) else due)
      && (forall k :: k in scheduled && k != key ==> step.scheduled[k] == scheduled[k])
  {
    if !r.enabled then GuiStep(map[], false)
    else
      var key := SettingsKey(r.interval, r.unit);
      var d := Duration(r.interval, r.unit);
      var s := if key in scheduled then scheduled else scheduled[key := r.now + d];
      if r.now >= s[key] then GuiStep(s[key := r.now + d], true) else GuiStep(s, false)
  }

  /** With a positive interval, the pass that first schedules a key does not fire. */
  lemma GuiFirstPassWaits(scheduled: map<string, int>, r: Reading)
    requires r.enabled && SettingsKey(r.interval, r.unit) !in scheduled && r.interval > 0
    ensures !GuiTick(scheduled, r).fired
    ensures GuiTick(scheduled, r).scheduled[SettingsKey(r.interval, r.unit)] == r.now + Duration(r.interval, r.unit)
  {
    DurationSign(r.interval, r.unit);
  }

  /** The outcomes of a run of passes starting from `scheduled`. */
  function GuiFires(scheduled: map<string, int>, rs: seq<Reading>): (fires: seq<bool>)
    ensures |fires| == |rs|
    decreases |rs|
  {
    if rs == [] then []
    else
      var step := GuiTick(scheduled, rs[0]);
      [step.fired] + GuiFires(step.scheduled, rs[1..])
  }

  predicate SameSettings(rs: seq<Reading>, interval: int, unit: string)
  {
    forall k :: 0 <= k < |rs| ==> rs[k].enabled && rs[k].interval == interval && rs[k].unit == unit
  }

  /** While the settings stay put, once their entry says `due` no backup starts before `due`. */
  lemma {:induction false} GuiNoFireBeforeDue(scheduled: map<string, int>, rs: seq<Reading>,
                                              interval: int, unit: string, due: int, j: nat)
    requires SameSettings(rs, interval, unit) && Duration(interval, unit) >= 0
    requires SettingsKey(interval, unit) in scheduled && scheduled[SettingsKey(interval, unit)] == due
    requires j < |rs| && GuiFires(scheduled, rs)[j]
    ensures rs[j].now >= due
    decreases j
  {
    var step := GuiTick(scheduled, rs[0]);
    if j > 0 {
      var key := SettingsKey(interval, unit);
      var next := if step.fired then rs[0].now + Duration(interval, unit) else due;
      assert step.scheduled[key] == next;
      assert SameSettings(rs[1..], interval, unit) by {
        forall k | 0 <= k < |rs[1..]| ensures rs[1..][k] == rs[k + 1] { }
      }
      assert GuiFires(step.scheduled, rs[1..])[j - 1];
      GuiNoFireBeforeDue(step.scheduled, rs[1..], interval, unit, next, j - 1);
      assert rs[1..][j - 1] == rs[j];
    }
  }

  /** While the settings stay put, two scheduled backups start at least one
      interval apart. */
  lemma {:induction false} GuiFiresSpaced(scheduled: map<string, int>, rs: seq<Reading>,
                                          interval: int, unit: string, i: nat, j: nat)
    requires SameSettings(rs, interval, unit) && interval >= 0
    requires i < j < |rs| && GuiFires(scheduled, rs)[i] && GuiFires(scheduled, rs)[j]
    ensures rs[j].now >= rs[i].now + Duration(interval, unit)
    decreases i
  {
    DurationSign(interval, unit);
    var step := GuiTick(scheduled, rs[0]);
    assert SameSettings(rs[1..], interval, unit) by {
      forall k | 0 <= k < |rs[1..]| ensures rs[1..][k] == rs[k + 1] { }
    }
    assert GuiFires(step.scheduled, rs[1..])[j - 1];
    assert rs[1..][j - 1] == rs[j];
    if i == 0 {
      GuiNoFireBeforeDue(step.scheduled, rs[1..], interval, unit, rs[0].now + Duration(interval, unit), j - 1);
    } else {
      assert GuiFires(step.scheduled, rs[1..])[i - 1];
      assert rs[1..][i - 1] == rs[i];
      GuiFiresSpaced(step.scheduled, rs[1..], interval, unit, i - 1, j - 1);
    }
  }

  /** `_scheduler_loop` over a finite run of passes, from an empty dictionary:
      whether each pass started a backup. */
  method SchedulerLoop(rs: seq<Reading>) returns (fires: seq<bool>)
    ensures fires == GuiFires(map[], rs)
  {
    var scheduled: map<string, int> := map[];
    fires := [];
    var i := 0;
    while i < |rs|
      invariant 0 <= i <= |rs|
      invariant fires + GuiFires(scheduled, rs[i..]) == GuiFires(map[], rs)
    {
      var step := GuiTick(scheduled, rs[i]);
      assert rs[i..][1..] == rs[i + 1..];
      fires := fires + [step.fired];
      scheduled := step.scheduled;
      i := i + 1;
    }
  }

  // ---------------------------------------------------------------------------
  // One pass of the service's loop

  /** After a failed scheduled backup the service tries again five minutes later. */
  const RetryDelay := 5 * 60

  datatype ServiceStep = ServiceStep(next: Option<int>, fired: bool)

  /** One pass of `run_service` once its settings are read.  `current` is the
      clock read at the top of the pass, `setClock` the clock read when the
      first time is computed, `backupOk` the backup's outcome and `doneClock`
      the clock read after it. */
  function ServiceTick(next: Option<int>, enabled: bool, interval: int, unit: string,
                       current: int, setClock: int, backupOk: bool, doneClock: int): (step: ServiceStep)
    ensures !enabled ==> step.next == None && !step.fired
    ensures enabled ==>
      var due := if next.None? then setClock + Duration(interval, unit) else next.value;
      && (step.fired <==> current >= due)
      && (!step.fired ==> step.next == Some(due))
      && (step.fired && backupOk ==> step.next == Some(doneClock + Duration(interval, unit)))
      && (step.fired && !backupOk ==> step.next == Some(current + RetryDelay))
  {
    if !enabled then ServiceStep(None, false)
    else
      var due := if next.None? then setClock + Duration(interval, unit) else next.value;
      if current < due then ServiceStep(Some(due), false)
      else if backupOk then ServiceStep(Some(doneClock + Duration(interval, unit)), true)
      else ServiceStep(Some(current + RetryDelay), true)
  }

  /** With a positive interval, the pass that first sets the time does not fire. */
  lemma ServiceFirstPassWaits(interval: int, unit: string, current: int, setClock: int, backupOk: bool, doneClock: int)
    requires interval > 0 && current <= setClock
    ensures var step := ServiceTick(None, true, interval, unit, current, setClock, backupOk, doneClock);
      !step.fired && step.next == Some(setClock + Duration(interval, unit))
  {
    DurationSign(interval, unit);
  }

  /** After a pass that ran a backup, the next time lies in the future: five
      minutes on after a failure, one interval after the backup's end otherwise. */
  lemma ServiceNextIsLater(next: Option<int>, interval: int, unit: string,
                           current: int, setClock: int, backupOk: bool, doneClock: int)
    requires interval > 0 && current <= doneClock
    requires ServiceTick(next, true, interval, unit, current, setClock, backupOk, doneClock).fired
    ensures var step := ServiceTick(next, true, interval, unit, current, setClock, backupOk, doneClock);
      step.next.Some? && step.next.value > current
  {
    DurationSign(interval, unit);
  }

  /** Once enabled, the service always has a next time; disabling forgets it. */
  lemma ServiceAlwaysScheduled(next: Option<int>, enabled: bool, interval: int, unit: string,
                               current: int, setClock: int, backupOk: bool, doneClock: int)
    ensures ServiceTick(next, enabled, interval, unit, current, setClock, backupOk, doneClock).next.Some? <==> enabled
  {
  }
}
