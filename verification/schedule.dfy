/**
 * An agent's daily schedule (memory/schedule.py): a list of plans laid end to end from midnight,
 * each with an optional list of sub-plans. Times are minutes since midnight.
 */
module Schedules {
  import opened Wrappers
  import opened Strings
  import Clock

  /** A plan dictionary; sub-plans are plans with an empty `decompose`. */
  datatype Plan = Plan(idx: int, describe: string, start: int, duration: int, decompose: seq<Plan>)

  /** `create` is an instant (seconds), absent when the schedule was made without one. */
  datatype Schedule = Schedule(create: Option<int>, plans: seq<Plan>, diversity: int, maxTry: int)

  /** `Schedule(create, daily_schedule, diversity, max_try)`: a missing list is the empty one, and
      diversity and the number of tries default to 5 when not given. */
  function NewSchedule(create: Option<int>, plans: seq<Plan>, diversity: Option<int>, maxTry: Option<int>): (r: Schedule)
    ensures r.plans == plans && r.create == create
    ensures r.diversity == diversity.GetOr(5) && r.maxTry == maxTry.GetOr(5)
  {
    Schedule(create, plans, diversity.GetOr(5), maxTry.GetOr(5))
  }

  /** A schedule made without plans has no current plan, is not yet scheduled for any day, and the
      first plan added to it starts at midnight, numbered 0. */
  lemma FreshSchedule(create: Option<int>, diversity: Option<int>, maxTry: Option<int>, now: int,
                      dayLabel: int -> string, describe: string, duration: int)
    ensures var s := NewSchedule(create, [], diversity, maxTry);
            CurrentPlan(s, now).None? && Scheduled(s, now, dayLabel) == Some(false) &&
            (diversity.None? ==> s.diversity == 5) && (maxTry.None? ==> s.maxTry == 5)
    ensures var t := AddPlan(NewSchedule(create, [], diversity, maxTry), describe, duration, []);
            |t.plans| == 1 && t.plans[0].start == 0 && t.plans[0].idx == 0 && Contiguous(t.plans)
  {
    var s := NewSchedule(create, [], diversity, maxTry);
    AddPlanContiguous(s, describe, duration, []);
  }

  /** `plan_stamps(plan)`: the minute the plan starts and the minute it ends. */
  function PlanStamps(p: Plan): (r: (int, int))
    ensures r.1 - r.0 == p.duration && r.0 == p.start
  {
    (p.start, p.start + p.duration)
  }

  function End(p: Plan): int { p.start + p.duration }

  /** `add_plan(describe, duration, decompose)`: the new plan starts where the last one ends (at
      midnight for the first) and is numbered by its position. */
  function AddPlan(s: Schedule, describe: string, duration: int, decompose: seq<Plan>): (r: Schedule)
    ensures |r.plans| == |s.plans| + 1 && r.plans[..|s.plans|] == s.plans
    ensures r.create == s.create && r.diversity == s.diversity && r.maxTry == s.maxTry
    ensures var p := r.plans[|s.plans|];
            p.idx == |s.plans| && p.describe == describe && p.duration == duration && p.decompose == decompose &&
            p.start == (if s.plans == [] then 0 else End(s.plans[|s.plans| - 1]))
  {
    var start := if s.plans == [] then 0 else End(s.plans[|s.plans| - 1]);
    s.(plans := s.plans + [Plan(|s.plans|, describe, start, duration, decompose)])
  }

  /** Plans numbered by position, the first at midnight, each starting where the previous ends. */
  predicate Contiguous(plans: seq<Plan>)
  {
    (forall i :: 0 <= i < |plans| ==> plans[i].idx == i) &&
    (|plans| > 0 ==> plans[0].start == 0) &&
    (forall i :: 1 <= i < |plans| ==> plans[i].start == End(plans[i - 1]))
  }

  /** Every schedule grown by `add_plan` from an empty one is contiguous. */
  lemma AddPlanContiguous(s: Schedule, describe: string, duration: int, decompose: seq<Plan>)
    requires Contiguous(s.plans)
    ensures Contiguous(AddPlan(s, describe, duration, decompose).plans)
  {
    var r := AddPlan(s, describe, duration, decompose).plans;
    assert forall i :: 0 <= i < |s.plans| ==> r[i] == s.plans[i];
  }

  /** The sum of the durations of the first n plans. */
  function Elapsed(plans: seq<Plan>, n: nat): int
    requires n <= |plans|
  {
    if n == 0 then 0 else Elapsed(plans, n - 1) + plans[n - 1].duration
  }

  /** In a contiguous schedule each plan starts after the total length of the ones before it. */
  lemma {:induction false} StartIsElapsed(plans: seq<Plan>, i: nat)
    requires Contiguous(plans) && i < |plans|
    ensures plans[i].start == Elapsed(plans, i)
  {
    if i > 0 {
      StartIsElapsed(plans, i - 1);
    }
  }

  /** Index of the first plan that has not ended at minute `now`. */
  function FirstOpen(ps: seq<Plan>, now: int): (r: Option<nat>)
    ensures r.Some? ==> r.value < |ps| && End(ps[r.value]) > now
    ensures r.Some? ==> forall j :: 0 <= j < r.value ==> End(ps[j]) <= now
    ensures r.None? ==> forall j :: 0 <= j < |ps| ==> End(ps[j]) <= now
  {
    if ps == [] then None
    else if End(ps[0]) > now then Some(0)
    else match FirstOpen(ps[1..], now)
      case None => None
      case Some(i) => Some(i + 1)
  }

  /** The answer of `current_plan`: a plan, and a sub-plan of it or the plan itself (`None`). */
  datatype Current = Current(plan: nat, sub: Option<nat>)

  /** `current_plan()` at minute `now`: the first plan not yet ended and, inside it, the first
      sub-plan not yet ended, or the plan itself; when every plan has ended, the last plan twice.
      An empty schedule raises, which is `None`. */
  function CurrentPlan(s: Schedule, now: int): (r: Option<Current>)
    ensures r.None? <==> s.plans == []
    ensures r.Some? ==> r.value.plan < |s.plans|
    ensures r.Some? && r.value.sub.Some? ==> r.value.sub.value < |s.plans[r.value.plan].decompose|
  {
    if s.plans == [] then None
    else match FirstOpen(s.plans, now)
      case None => Some(Current(|s.plans| - 1, None))
      case Some(i) => Some(Current(i, FirstOpen(s.plans[i].decompose, now)))
  }

  /** The plan picked is the first one still running, and the sub-plan the first one of it still
      running; both directions of "every plan has ended". */
  lemma CurrentPlanFirst(s: Schedule, now: int)
    requires s.plans != []
    ensures var c := CurrentPlan(s, now).value;
            (forall j :: 0 <= j < c.plan ==> End(s.plans[j]) <= now) &&
            (End(s.plans[c.plan]) > now || (c.plan == |s.plans| - 1 && c.sub.None?)) &&
            (c.sub.Some? ==> End(s.plans[c.plan].decompose[c.sub.value]) > now &&
                             forall j :: 0 <= j < c.sub.value ==> End(s.plans[c.plan].decompose[j]) <= now)
    ensures (forall j :: 0 <= j < |s.plans| ==> End(s.plans[j]) <= now) ==>
              CurrentPlan(s, now) == Some(Current(|s.plans| - 1, None))
  {
  }

  /** In a contiguous schedule of non-negative lengths, at any minute before the schedule ends,
      the current plan is the one whose window holds that minute. */
  lemma {:induction false} CurrentPlanContains(s: Schedule, now: int)
    requires Contiguous(s.plans) && s.plans != [] && 0 <= now
    requires forall j :: 0 <= j < |s.plans| ==> s.plans[j].duration >= 0
    requires now < End(s.plans[|s.plans| - 1])
    ensures var c := CurrentPlan(s, now).value;
            s.plans[c.plan].start <= now < End(s.plans[c.plan])
  {
    var i := FirstOpen(s.plans, now).value;
    if i > 0 {
      assert End(s.plans[i - 1]) <= now;
    }
  }

  /** `plan_stamps(plan, time_format)` before formatting: the instants of today at which the plan
      starts and ends, on the clock `t`. */
  function PlanInstants(t: Clock.Timer, p: Plan): (r: (int, int))
    ensures r.1 - r.0 == 60 * p.duration
  {
    (Clock.DailyTime(t, p.start), Clock.DailyTime(t, End(p)))
  }

  /** A plan stamp read back as a time of day is the plan's own start minute. */
  lemma PlanInstantsRoundTrip(t: Clock.Timer, p: Plan)
    requires 0 <= p.start < Clock.MinutesPerDay
    ensures Clock.DailyDuration(PlanInstants(t, p).0) == p.start
  {
    Clock.DailyTimeRoundTrip(t, p.start);
  }

  /** A description that speaks of sleep or bed in both languages. */
  predicate AboutSleep(describe: string)
  {
    (Contains(describe, "sleep") || Contains(describe, "bed")) &&
    (Contains(describe, "睡") || Contains(describe, "床"))
  }

  /** `decompose(plan)`, branch by branch as written. The branches after the second early
      return are reachable only when the description passes both keyword tests, and then the
      Chinese test always answers first, so the 60-minute rule is never consulted. */
  function Decompose(p: Plan): (r: bool)
  {
    if |p.decompose| > 0 then false
    else if !Contains(p.describe, "sleep") && !Contains(p.describe, "bed") then true
    else if !Contains(p.describe, "睡") && !Contains(p.describe, "床") then true
    else if Contains(p.describe, "sleeping") || Contains(p.describe, "asleep") || Contains(p.describe, "in bed") then false
    else if Contains(p.describe, "睡") || Contains(p.describe, "床") then false
    else if Contains(p.describe, "sleep") || Contains(p.describe, "bed") then p.duration <= 60
    else if Contains(p.describe, "睡") || Contains(p.describe, "床") then p.duration <= 60
    else true
  }

  /** A plan is split exactly when it has no sub-plans yet and does not mention sleep in both
      languages; its length plays no part. */
  lemma DecomposeIff(p: Plan)
    ensures Decompose(p) <==> |p.decompose| == 0 && !AboutSleep(p.describe)
  {
  }

  /** A plan described only as "睡觉" is split like any other. */
  lemma ChineseSleepIsSplit(p: Plan)
    requires p.describe == "睡觉" && p.decompose == []
    ensures Decompose(p)
  {
    assert !Contains("睡觉", "sleep") by {
      assert !IsPrefix("sleep", "睡觉");
      assert "睡觉"[1..] == "觉" && "觉"[1..] == "";
      assert !IsPrefix("sleep", "觉");
    }
    assert !Contains("睡觉", "bed") by {
      assert !IsPrefix("bed", "睡觉");
      assert "睡觉"[1..] == "觉" && "觉"[1..] == "";
      assert !IsPrefix("bed", "觉");
    }
  }

  /** `scheduled()` at instant `now`: an empty schedule is not; otherwise the calendar day label of
      `now` must equal that of `create` (the label format is the parameter `dayLabel`). A schedule
      with plans but no `create` raises, which is `None`. */
  function Scheduled(s: Schedule, now: int, dayLabel: int -> string): (r: Option<bool>)
    ensures s.plans == [] ==> r == Some(false)
    ensures s.plans != [] && s.create.None? ==> r.None?
    ensures s.plans != [] && s.create.Some? ==> r == Some(dayLabel(now) == dayLabel(s.create.value))
  {
    if s.plans == [] then Some(false)
    else match s.create
      case None => None
      case Some(c) => Some(dayLabel(now) == dayLabel(c))
  }

  /** With a label that depends on the calendar day only, a schedule made earlier the same day is
      current. */
  lemma ScheduledSameDay(s: Schedule, now: int, dayLabel: int -> string)
    requires forall a, b :: a / Clock.SecondsPerDay == b / Clock.SecondsPerDay ==> dayLabel(a) == dayLabel(b)
    requires s.plans != [] && s.create.Some? && s.create.value / Clock.SecondsPerDay == now / Clock.SecondsPerDay
    ensures Scheduled(s, now, dayLabel) == Some(true)
  {
  }
}
