/**
 * The deterministic half of the prompt builders (prompt/scratch.py): what each callback makes of
 * the model's answer, the failsafes, and the few numbers computed for the prompts. Prompt text
 * assembly is not modelled. The regex engine is the abstract `find` of LlmOutput, and `groups`
 * splits one match into its capture groups (what `re.findall` returns as a tuple).
 */
module Callbacks {
  import opened Wrappers
  import opened Strings
  import opened Dicts
  import Clock
  import opened Schedules
  import opened LlmOutput

  /** The capture groups of every result of a `match_all` parse, or `Failed`/`Nothing` passed on. */
  function AllGroups(response: string, patterns: seq<string>, find: (string, string) -> seq<string>,
                     groups: string -> seq<string>): (r: Option<seq<seq<string>>>)
    ensures r.Some? <==> ParseOutput(response, Several(patterns), MatchAll, false, find).Listed?
    ensures r.Some? ==> |r.value| == |AnswerResults(response, Several(patterns), find)|
  {
    match ParseOutput(response, Several(patterns), MatchAll, false, find)
    case Listed(all) => Some(seq(|all|, i requires 0 <= i < |all| => groups(all[i])))
    case _ => None
  }

  // ---------------------------------------------------------------- wake-up hour

  const WakeUpPatterns: seq<string> := ["(\\d{1,2}):00", "(\\d{1,2})", "\\d{1,2}"]
  const WakeUpFailsafe: int := 6

  /** The wake-up callback: the last match is read as an integer, and an hour later than 11 is
      taken as 11. A missing match or a non-number raises. */
  function WakeUp(response: string, find: (string, string) -> seq<string>): (r: Reaction<int>)
    ensures r.Accepted? ==> r.value <= 11
    ensures !r.Rejected?
  {
    match ParseOutput(response, Several(WakeUpPatterns), MatchLast, false, find)
    case Picked(t) => Clamped(ParseInt(t))
    case _ => CallbackRaised
  }

  /** `int(...)` raising, or the hour taken no later than 11. */
  function Clamped(hour: Option<int>): (r: Reaction<int>)
    ensures r.Accepted? <==> hour.Some?
    ensures r.Accepted? ==> r.value <= 11
  {
    if hour.None? then CallbackRaised
    else if hour.value > 11 then Accepted(11)
    else Accepted(hour.value)
  }

  /** An hour written out in digits is taken as it is up to 11, and as 11 after that. */
  lemma WakeUpReadsHour(response: string, find: (string, string) -> seq<string>, h: nat)
    requires ParseOutput(response, Several(WakeUpPatterns), MatchLast, false, find) == Picked(NatStr(h))
    ensures WakeUp(response, find) == Accepted(if h <= 11 then h else 11)
  {
    ParseNatStr(h);
    assert Clamped(ParseInt(NatStr(h))) == Accepted(if h <= 11 then h else 11);
  }

  // ---------------------------------------------------------------- hourly seed

  const Asleep: string := "睡觉"
  const Activity: string := "<活动>"

  /** The hour lines of the daily prompt, as (hour, label): `range(wake_up)` asleep, then
      `range(wake_up, 24)` left open. */
  function HourlySeed(wakeUp: int): (r: seq<(int, string)>)
    ensures forall i :: 0 <= i < |r| ==> (r[i].1 == Asleep <==> r[i].0 < wakeUp)
    ensures forall i :: 0 <= i < |r| ==> r[i].1 == Asleep || r[i].1 == Activity
    ensures forall i :: 1 <= i < |r| ==> r[i].0 == r[i - 1].0 + 1
    ensures r != [] && wakeUp < 24 ==> r[|r| - 1].0 == 23
  {
    var sleeping := if wakeUp < 0 then 0 else wakeUp;
    var open := if wakeUp >= 24 then 0 else 24 - wakeUp;
    seq(sleeping, i requires 0 <= i < sleeping => (i, Asleep)) +
    seq(open, i requires 0 <= i < open => (wakeUp + i, Activity))
  }

  /** For a wake-up hour of the day, the seed has one line per hour, asleep exactly before it. */
  lemma HourlySeedDay(wakeUp: int)
    requires 0 <= wakeUp <= 24
    ensures var r := HourlySeed(wakeUp);
            |r| == 24 && forall i :: 0 <= i < 24 ==> r[i] == (i, if i < wakeUp then Asleep else Activity)
  {
  }

  /** The bounds are not checked: a wake-up hour past 24 gives more than 24 lines, all asleep, and
      a negative one gives open hours before midnight. */
  lemma HourlySeedOutOfRange(wakeUp: int)
    ensures wakeUp > 24 ==> |HourlySeed(wakeUp)| == wakeUp && forall i :: 0 <= i < wakeUp ==> HourlySeed(wakeUp)[i].1 == Asleep
    ensures wakeUp < 0 ==> |HourlySeed(wakeUp)| == 24 - wakeUp && HourlySeed(wakeUp)[0] == (wakeUp, Activity)
  {
  }

  // ---------------------------------------------------------------- daily schedule

  function DailyPatterns(name: string): seq<string>
  {
    ["\\[(\\d{1,2}:\\d{2})\\] " + name + "(.*)。", "\\[(\\d{1,2}:\\d{2})\\] " + name + "(.*)",
     "\\[(\\d{1,2}:\\d{2})\\] (.*)。", "\\[(\\d{1,2}:\\d{2})\\] (.*)"]
  }

  /** The (time, activity) pair of each match; a match with fewer than two groups raises. */
  function Pairs(items: seq<seq<string>>): (r: Option<seq<(string, string)>>)
    ensures r.Some? <==> forall i :: 0 <= i < |items| ==> |items[i]| >= 2
    ensures r.Some? ==> |r.value| == |items| && forall i :: 0 <= i < |items| ==> r.value[i] == (items[i][0], items[i][1])
  {
    if forall i :: 0 <= i < |items| ==> |items[i]| >= 2 then
      Some(seq(|items|, i requires 0 <= i < |items| && |items[i]| >= 2 => (items[i][0], items[i][1])))
    else None
  }

  /** The daily callback: fewer than five matches raise, and otherwise the answer is the
      dictionary from time to activity. */
  function Daily(response: string, name: string, find: (string, string) -> seq<string>,
                 groups: string -> seq<string>): (r: Reaction<seq<(string, string)>>)
    ensures r.Accepted? ==> |AnswerResults(response, Several(DailyPatterns(name)), find)| >= 5 && DistinctKeys(r.value)
    ensures !r.Rejected?
  {
    match AllGroups(response, DailyPatterns(name), find, groups)
    case Some(items) =>
      if |items| < 5 then CallbackRaised
      else
        (match Pairs(items)
         case Some(ps) => Accepted(FromPairs(ps))
         case None => CallbackRaised)
    case None => CallbackRaised
  }

  /** Every time of the answer is a key once, with the activity given last for it. */
  lemma DailyLastWins(response: string, name: string, find: (string, string) -> seq<string>,
                      groups: string -> seq<string>, time: string)
    requires Daily(response, name, find, groups).Accepted?
    ensures var items := AllGroups(response, DailyPatterns(name), find, groups).value;
            var ps := Pairs(items).value;
            var j := LastKeyed(ps, time);
            Lookup(Daily(response, name, find, groups).value, time) == (if j >= 0 then Some(ps[j].1) else None)
  {
    FromPairsLastWins(Pairs(AllGroups(response, DailyPatterns(name), find, groups).value).value, time);
  }

  // ---------------------------------------------------------------- decomposition

  const DecomposePattern: string := "\\d{1,2}\\) .*\\*计划\\* (.*)[\\(（]+耗时[:： ]+(\\d{1,2})[,， ]+剩余[:： ]+\\d*[\\)）]"

  /** The sum of the minutes of the sub-plans. */
  function Total(xs: seq<(string, int)>): int
  {
    if xs == [] then 0 else Total(xs[..|xs| - 1]) + xs[|xs| - 1].1
  }

  /** A match with a description and a minute count. */
  predicate Readable(item: seq<string>)
  {
    |item| >= 2 && ParseInt(item[1]).Some?
  }

  /** `(s[0].strip("."), int(s[1]))` for each match; a short match or a non-number raises. */
  function Timed(items: seq<seq<string>>): (r: Option<seq<(string, int)>>)
    ensures r.Some? <==> forall i :: 0 <= i < |items| ==> Readable(items[i])
    ensures r.Some? ==> |r.value| == |items|
    ensures r.Some? ==> forall i :: 0 <= i < |items| ==> r.value[i].1 == ParseInt(items[i][1]).value
  {
    if forall i :: 0 <= i < |items| ==> Readable(items[i]) then
      Some(seq(|items|, i requires 0 <= i < |items| && Readable(items[i]) => Entry(items[i])))
    else None
  }

  function Entry(item: seq<string>): (r: (string, int))
    requires Readable(item)
    ensures r.1 == ParseInt(item[1]).value
  {
    (StripDots(item[0]), ParseInt(item[1]).value)
  }

  /** What is left of the plan goes last, under the plan's own description. */
  function Padded(xs: seq<(string, int)>, describe: string, duration: int): (r: seq<(string, int)>)
    ensures |xs| <= |r| && r[..|xs|] == xs
    ensures Total(xs) < duration ==> Total(r) == duration && r == xs + [(describe, duration - Total(xs))]
    ensures Total(xs) >= duration ==> r == xs
  {
    var left := duration - Total(xs);
    if left > 0 then
      assert (xs + [(describe, left)])[..|xs|] == xs;
      xs + [(describe, left)]
    else xs
  }

  /** The decompose callback over a plan of `duration` minutes described as `describe`. */
  function DecomposeAnswer(response: string, describe: string, duration: int,
                           find: (string, string) -> seq<string>, groups: string -> seq<string>): (r: Reaction<seq<(string, int)>>)
    ensures !r.Rejected?
    ensures r.Accepted? ==> Total(r.value) >= duration
  {
    match AllGroups(response, [DecomposePattern], find, groups)
    case Some(items) => Settle(Timed(items), describe, duration)
    case None => CallbackRaised
  }

  /** The parsed sub-plans, padded; a raised conversion is passed on. */
  function Settle(timed: Option<seq<(string, int)>>, describe: string, duration: int): (r: Reaction<seq<(string, int)>>)
    ensures !r.Rejected?
    ensures r.Accepted? ==> timed.Some? && Total(r.value) >= duration
  {
    if timed.Some? then Accepted(Padded(timed.value, describe, duration)) else CallbackRaised
  }

  /** The parsed sub-plans are kept as they are, never cut to fit; a shortfall is padded up to the
      plan's length exactly. */
  lemma DecomposeKeepsParsed(response: string, describe: string, duration: int,
                             find: (string, string) -> seq<string>, groups: string -> seq<string>)
    requires DecomposeAnswer(response, describe, duration, find, groups).Accepted?
    ensures var xs := Timed(AllGroups(response, [DecomposePattern], find, groups).value).value;
            var r := DecomposeAnswer(response, describe, duration, find, groups).value;
            r[..|xs|] == xs && (|r| == |xs| || |r| == |xs| + 1) &&
            (Total(xs) < duration ==> Total(r) == duration) &&
            (Total(xs) >= duration ==> r == xs)
  {
  }

  /** `[(describe, 10) for _ in range(int(duration / 10))]`. */
  function DecomposeFailsafe(describe: string, duration: int): (r: seq<(string, int)>)
    ensures forall i :: 0 <= i < |r| ==> r[i] == (describe, 10)
  {
    var n := TruncDiv(duration, 10);
    seq(if n < 0 then 0 else n, _ => (describe, 10))
  }

  /** Ten-minute slots of the failsafe cover a non-negative plan up to less than ten minutes. */
  lemma DecomposeFailsafeCovers(describe: string, duration: int)
    requires duration >= 0
    ensures var r := DecomposeFailsafe(describe, duration);
            Total(r) <= duration < Total(r) + 10 && |r| == duration / 10
  {
    var r := DecomposeFailsafe(describe, duration);
    TenMinuteSlots(r);
  }

  lemma {:induction false} TenMinuteSlots(r: seq<(string, int)>)
    requires forall i :: 0 <= i < |r| ==> r[i].1 == 10
    ensures Total(r) == 10 * |r|
  {
    if r != [] {
      TenMinuteSlots(r[..|r| - 1]);
    }
  }

  /** The granularity offered to the model: five minutes per full hundred minutes of the plan,
      at least five. */
  function Increment(duration: int): (r: int)
    ensures r >= 5 && r % 5 == 0
    ensures duration >= 200 ==> r == duration / 100 * 5
    ensures duration < 200 ==> r == 5
  {
    var k := TruncDiv(duration, 100) * 5;
    if k > 5 then k else 5
  }

  /** The plans shown around the one being decomposed: its neighbours, clipped to the schedule. */
  function ContextIndices(idx: int, n: int): (r: seq<int>)
    ensures forall i :: 0 <= i < |r| ==> 0 <= r[i] < n && idx - 1 <= r[i] <= idx + 1
    ensures forall j :: 0 <= j < n && idx - 1 <= j <= idx + 1 ==> j in r
    ensures forall i, k :: 0 <= i < k < |r| ==> r[i] < r[k]
  {
    var lo := if idx - 1 > 0 then idx - 1 else 0;
    var hi := if idx + 2 < n then idx + 2 else n;
    var r := seq(if hi > lo then hi - lo else 0, i requires 0 <= i => lo + i);
    forall j | 0 <= j < n && idx - 1 <= j <= idx + 1 ensures j in r {
      assert r[j - lo] == j;
    }
    r
  }

  // ---------------------------------------------------------------- revision

  /** A line of the revised plan shown to the model: its start and end minutes and its text. */
  datatype Slot = Slot(start: int, end: int, describe: string)

  /** The sub-plans as they stood. */
  function Slots(subs: seq<Plan>): (r: seq<Slot>)
    ensures |r| == |subs| && forall i :: 0 <= i < |subs| ==> r[i] == Slot(subs[i].start, End(subs[i]), subs[i].describe)
  {
    seq(|subs|, i requires 0 <= i < |subs| => Slot(subs[i].start, End(subs[i]), subs[i].describe))
  }

  /** The new plan around an action that starts at `actStart`: sub-plans over by then stay, the one
      running then is cut at `actStart` and followed by the action, later ones go. */
  function Revised(subs: seq<Plan>, actStart: int, actEnd: int, actDescribe: string): seq<Slot>
  {
    if subs == [] then []
    else
      var p := subs[0];
      (if End(p) <= actStart then [Slot(p.start, End(p), p.describe)]
       else if p.start <= actStart then [Slot(p.start, actStart, p.describe), Slot(actStart, actEnd, actDescribe)]
       else []) +
      Revised(subs[1..], actStart, actEnd, actDescribe)
  }

  /** Sub-plans one after the other, none of negative length. */
  predicate Chained(subs: seq<Plan>)
  {
    (forall i :: 0 <= i < |subs| ==> subs[i].duration >= 0) &&
    (forall i :: 1 <= i < |subs| ==> subs[i].start == End(subs[i - 1]))
  }

  /** How many sub-plans in a row have ended by `t`. */
  function EndedBy(subs: seq<Plan>, t: int): (k: nat)
    ensures k <= |subs|
    ensures forall i :: 0 <= i < k ==> End(subs[i]) <= t
    ensures k < |subs| ==> End(subs[k]) > t
  {
    if subs == [] || End(subs[0]) > t then 0 else 1 + EndedBy(subs[1..], t)
  }

  /** The cut sub-plan and the action, when the `k`-th sub-plan has begun by the action's start. */
  function Cut(subs: seq<Plan>, k: nat, actStart: int, actEnd: int, actDescribe: string): seq<Slot>
  {
    if k < |subs| && subs[k].start <= actStart
    then [Slot(subs[k].start, actStart, subs[k].describe), Slot(actStart, actEnd, actDescribe)]
    else []
  }

  /** For chained sub-plans the revision keeps the ones over by the action's start unchanged, then
      cuts the one running at that minute and puts the action after it, and drops the rest. */
  lemma {:induction false} RevisedSplits(subs: seq<Plan>, actStart: int, actEnd: int, actDescribe: string)
    requires Chained(subs)
    ensures var k := EndedBy(subs, actStart);
            Revised(subs, actStart, actEnd, actDescribe) == Slots(subs[..k]) + Cut(subs, k, actStart, actEnd, actDescribe)
  {
    if subs != [] {
      var rest := subs[1..];
      ChainedTail(subs);
      var p := subs[0];
      if End(p) <= actStart {
        RevisedSplits(rest, actStart, actEnd, actDescribe);
        var k := EndedBy(subs, actStart);
        SlotsCons(subs, k);
        var first := Slot(p.start, End(p), p.describe);
        var cut := Cut(subs, k, actStart, actEnd, actDescribe);
        assert cut == Cut(rest, k - 1, actStart, actEnd, actDescribe);
        assert Revised(subs, actStart, actEnd, actDescribe) == [first] + Revised(rest, actStart, actEnd, actDescribe);
        assert [first] + (Slots(rest[..k - 1]) + cut) == ([first] + Slots(rest[..k - 1])) + cut;
      } else {
        ChainedAfter(subs, actStart);
        assert Slots(subs[..0]) == [];
        assert Revised(subs, actStart, actEnd, actDescribe) == Cut(subs, 0, actStart, actEnd, actDescribe) + [];
      }
    }
  }

  lemma SlotsCons(subs: seq<Plan>, k: nat)
    requires 1 <= k <= |subs|
    ensures Slots(subs[..k]) == [Slot(subs[0].start, End(subs[0]), subs[0].describe)] + Slots(subs[1..][..k - 1])
  {
    assert subs[..k] == [subs[0]] + subs[1..][..k - 1];
  }

  lemma ChainedTail(subs: seq<Plan>)
    requires Chained(subs) && subs != []
    ensures Chained(subs[1..])
  {
    var rest := subs[1..];
    assert forall i :: 0 <= i < |rest| ==> rest[i] == subs[i + 1];
  }

  /** Once the first sub-plan runs past `t`, none of the later ones is revised into anything. */
  lemma ChainedAfter(subs: seq<Plan>, t: int)
    requires Chained(subs) && subs != [] && End(subs[0]) > t
    ensures forall a, d :: Revised(subs[1..], t, a, d) == []
  {
    forall j | 1 <= j < |subs| ensures subs[j].start > t {
      ChainedEnds(subs, 0, j - 1);
    }
    forall a, d ensures Revised(subs[1..], t, a, d) == [] {
      NothingAfter(subs[1..], t, a, d);
    }
  }

  /** Sub-plans that all start after `t` revise into nothing. */
  lemma {:induction false} NothingAfter(subs: seq<Plan>, t: int, actEnd: int, actDescribe: string)
    requires forall i :: 0 <= i < |subs| ==> subs[i].start > t && subs[i].duration >= 0
    ensures Revised(subs, t, actEnd, actDescribe) == []
  {
    if subs != [] {
      NothingAfter(subs[1..], t, actEnd, actDescribe);
    }
  }

  /** Chained sub-plans end in order. */
  lemma {:induction false} ChainedEnds(subs: seq<Plan>, i: int, j: int)
    requires Chained(subs) && 0 <= i <= j < |subs|
    ensures End(subs[i]) <= End(subs[j])
    decreases j - i
  {
    if i < j {
      ChainedEnds(subs, i, j - 1);
      assert End(subs[j - 1]) == subs[j].start;
    }
  }

  const RevisePatterns: seq<string> := [
    "^\\[(\\d{1,2}:\\d{1,2}) ?- ?(\\d{1,2}:\\d{1,2})\\] (.*)",
    "^\\[(\\d{1,2}:\\d{1,2}) ?~ ?(\\d{1,2}:\\d{1,2})\\] (.*)",
    "^\\[(\\d{1,2}:\\d{1,2}) ?至 ?(\\d{1,2}:\\d{1,2})\\] (.*)"]

  /** A (start, end, describe) match whose times parse. */
  predicate Clocked(item: seq<string>)
  {
    |item| == 3 && Clock.ParseClock(item[0]).Some? && Clock.ParseClock(item[1]).Some?
  }

  /** The `i`-th sub-plan of the answer: from its start minute to its end minute. */
  function SubPlan(i: int, item: seq<string>): (r: Plan)
    requires Clocked(item)
    ensures r.idx == i && r.describe == item[2] && r.decompose == []
    ensures Clock.ParseClock(item[0]) == Some(r.start) && Clock.ParseClock(item[1]) == Some(End(r))
  {
    var s := Clock.ParseClock(item[0]).value;
    Plan(i, item[2], s, Clock.ParseClock(item[1]).value - s, [])
  }

  /** Each match as a sub-plan numbered by position; a match that is not a triple, or a time that
      does not parse, raises. */
  function Rescheduled(items: seq<seq<string>>): (r: Option<seq<Plan>>)
    ensures r.Some? <==> forall i :: 0 <= i < |items| ==> Clocked(items[i])
    ensures r.Some? ==> |r.value| == |items| && forall i :: 0 <= i < |items| ==> r.value[i] == SubPlan(i, items[i])
  {
    if forall i :: 0 <= i < |items| ==> Clocked(items[i]) then
      Some(seq(|items|, i requires 0 <= i < |items| && Clocked(items[i]) => SubPlan(i, items[i])))
    else None
  }

  /** The revise callback. */
  function Revise(response: string, find: (string, string) -> seq<string>,
                  groups: string -> seq<string>): (r: Reaction<seq<Plan>>)
    ensures !r.Rejected?
  {
    match AllGroups(response, RevisePatterns, find, groups)
    case Some(items) =>
      (match Rescheduled(items)
       case Some(ps) => Accepted(ps)
       case None => CallbackRaised)
    case None => CallbackRaised
  }

  /** Slots written as ("%H:%M", "%H:%M", text) triples. */
  function Written(slots: seq<Slot>): (r: seq<seq<string>>)
    requires forall i :: 0 <= i < |slots| ==> 0 <= slots[i].start < Clock.MinutesPerDay && 0 <= slots[i].end < Clock.MinutesPerDay
    ensures |r| == |slots|
    ensures forall i :: 0 <= i < |slots| ==> r[i] == [Clock.FormatClock(slots[i].start), Clock.FormatClock(slots[i].end), slots[i].describe]
  {
    if slots == [] then []
    else
      var last := slots[|slots| - 1];
      Written(slots[..|slots| - 1]) + [[Clock.FormatClock(last.start), Clock.FormatClock(last.end), last.describe]]
  }

  /** Slots as sub-plans numbered by position. */
  function AsPlans(slots: seq<Slot>): (r: seq<Plan>)
    ensures |r| == |slots|
    ensures forall i :: 0 <= i < |slots| ==> r[i] == Plan(i, slots[i].describe, slots[i].start, slots[i].end - slots[i].start, [])
  {
    if slots == [] then []
    else
      var last := slots[|slots| - 1];
      AsPlans(slots[..|slots| - 1]) + [Plan(|slots| - 1, last.describe, last.start, last.end - last.start, [])]
  }

  /** Slots written back as "%H:%M" times are read back as the same sub-plans. */
  lemma {:induction false} RescheduledRoundTrip(slots: seq<Slot>)
    requires forall i :: 0 <= i < |slots| ==> 0 <= slots[i].start < Clock.MinutesPerDay && 0 <= slots[i].end < Clock.MinutesPerDay
    ensures Rescheduled(Written(slots)) == Some(AsPlans(slots))
  {
    var items := Written(slots);
    forall i | 0 <= i < |slots| ensures Clocked(items[i]) && SubPlan(i, items[i]) == AsPlans(slots)[i] {
      ReadBack(i, slots[i], items[i]);
    }
    var r := Rescheduled(items).value;
    assert r == AsPlans(slots);
  }

  lemma ReadBack(i: int, slot: Slot, item: seq<string>)
    requires 0 <= slot.start < Clock.MinutesPerDay && 0 <= slot.end < Clock.MinutesPerDay
    requires item == [Clock.FormatClock(slot.start), Clock.FormatClock(slot.end), slot.describe]
    ensures Clocked(item) && SubPlan(i, item) == Plan(i, slot.describe, slot.start, slot.end - slot.start, [])
  {
    Clock.ClockRoundTrip(slot.start);
    Clock.ClockRoundTrip(slot.end);
  }

  // ---------------------------------------------------------------- places

  const PlacePatterns: seq<string> := [".*应该去[:： ]*(.*)。", ".*应该去[:： ]*(.*)", "(.+)。", "(.+)"]
  const ObjectPatterns: seq<string> := [".*是[:： ]*(.*)。", ".*是[:： ]*(.*)", "(.+)。", "(.+)"]

  /** `arenas`: every arena under a sector, owned by the first sector listing it. `arenasOf(sec)`
      stands for `spatial.get_leaves(address + [sec])`. */
  function ArenaOwners(sectors: seq<string>, arenasOf: string -> seq<string>): (r: seq<(string, string)>)
  {
    if sectors == [] then []
    else
      var before := ArenaOwners(sectors[..|sectors| - 1], arenasOf);
      Claim(before, before, arenasOf(sectors[|sectors| - 1]), sectors[|sectors| - 1])
  }

  /** `d.update({a: sec for a in arenas if a not in seen})`. */
  function Claim(d: seq<(string, string)>, seen: seq<(string, string)>, arenas: seq<string>, sec: string): (r: seq<(string, string)>)
  {
    if arenas == [] then d
    else
      var d' := Claim(d, seen, arenas[..|arenas| - 1], sec);
      var a := arenas[|arenas| - 1];
      if HasKey(seen, a) then d' else Put(d', a, sec)
  }

  /** The first sector listing the arena. */
  function FirstOwner(sectors: seq<string>, arenasOf: string -> seq<string>, a: string): (r: Option<string>)
    ensures r.Some? ==> r.value in sectors && a in arenasOf(r.value)
    ensures r.None? ==> forall s :: s in sectors ==> a !in arenasOf(s)
  {
    if sectors == [] then None
    else if a in arenasOf(sectors[0]) then Some(sectors[0])
    else FirstOwner(sectors[1..], arenasOf, a)
  }

  /** The arena dictionary maps each arena to the first sector that lists it. */
  lemma {:induction false} ArenaOwnersFirst(sectors: seq<string>, arenasOf: string -> seq<string>, a: string)
    ensures Lookup(ArenaOwners(sectors, arenasOf), a) == FirstOwner(sectors, arenasOf, a)
  {
    if sectors != [] {
      var init := sectors[..|sectors| - 1];
      var sec := sectors[|sectors| - 1];
      var before := ArenaOwners(init, arenasOf);
      ArenaOwnersFirst(init, arenasOf, a);
      assert sectors == init + [sec];
      ClaimLookup(before, before, arenasOf(sec), sec, a);
      FirstOwnerSnoc(init, sec, arenasOf, a);
    }
  }

  lemma {:induction false} ClaimLookup(d: seq<(string, string)>, seen: seq<(string, string)>, arenas: seq<string>, sec: string, a: string)
    ensures Lookup(Claim(d, seen, arenas, sec), a) ==
            if a in arenas && !HasKey(seen, a) then Some(sec) else Lookup(d, a)
  {
    if arenas != [] {
      ClaimLookup(d, seen, arenas[..|arenas| - 1], sec, a);
      assert a in arenas <==> a in arenas[..|arenas| - 1] || a == arenas[|arenas| - 1];
    }
  }

  lemma {:induction false} FirstOwnerSnoc(sectors: seq<string>, sec: string, arenasOf: string -> seq<string>, a: string)
    ensures FirstOwner(sectors + [sec], arenasOf, a) ==
            if FirstOwner(sectors, arenasOf, a).Some? then FirstOwner(sectors, arenasOf, a)
            else if a in arenasOf(sec) then Some(sec) else None
  {
    if sectors != [] {
      assert (sectors + [sec])[1..] == sectors[1..] + [sec];
      FirstOwnerSnoc(sectors[1..], sec, arenasOf, a);
    }
  }

  /** The first sector that the answer starts with. */
  function FirstPrefix(sectors: seq<string>, answer: string): (r: Option<string>)
    ensures r.Some? ==> r.value in sectors && IsPrefix(r.value, answer)
    ensures r.None? ==> forall s :: s in sectors ==> !IsPrefix(s, answer)
  {
    if sectors == [] then None
    else if IsPrefix(sectors[0], answer) then Some(sectors[0])
    else FirstPrefix(sectors[1..], answer)
  }

  /** What the sector callback makes of an answer. */
  function ResolveSector(answer: string, sectors: seq<string>, arenasOf: string -> seq<string>, failsafe: string): string
  {
    if answer in sectors then answer
    else match Lookup(ArenaOwners(sectors, arenasOf), answer)
      case Some(sec) => sec
      case None => FirstPrefix(sectors, answer).GetOr(failsafe)
  }

  /** The sector answer is a sector named outright, else the first sector owning a named arena,
      else the first sector the answer starts with, else the failsafe; it is always one of the
      sectors or the failsafe. */
  lemma ResolveSectorOrder(answer: string, sectors: seq<string>, arenasOf: string -> seq<string>, failsafe: string)
    ensures var r := ResolveSector(answer, sectors, arenasOf, failsafe);
            var owner := FirstOwner(sectors, arenasOf, answer);
            var prefix := FirstPrefix(sectors, answer);
            r == (if answer in sectors then answer
                  else if owner.Some? then owner.value
                  else if prefix.Some? then prefix.value
                  else failsafe) &&
            (r in sectors || r == failsafe)
  {
    ArenaOwnersFirst(sectors, arenasOf, answer);
  }

  /** The sector callback: the last match, resolved. No match raises. */
  function SectorAnswer(response: string, sectors: seq<string>, arenasOf: string -> seq<string>, failsafe: string,
                  find: (string, string) -> seq<string>): (r: Reaction<string>)
    ensures !r.Rejected?
    ensures r.Accepted? ==> r.value in sectors || r.value == failsafe
  {
    match ParseOutput(response, Several(PlacePatterns), MatchLast, false, find)
    case Picked(t) =>
      ResolveSectorOrder(t, sectors, arenasOf, failsafe);
      Accepted(ResolveSector(t, sectors, arenasOf, failsafe))
    case _ => CallbackRaised
  }

  /** A listed answer, or else the failsafe. */
  function Choose(answer: string, candidates: seq<string>, failsafe: string): (r: string)
    ensures r in candidates || r == failsafe
    ensures answer in candidates ==> r == answer
    ensures answer !in candidates ==> r == failsafe
  {
    if answer in candidates then answer else failsafe
  }

  /** The arena callback: the last match if it is one of the arenas, else the failsafe. */
  function ArenaAnswer(response: string, arenas: seq<string>, failsafe: string, find: (string, string) -> seq<string>): (r: Reaction<string>)
    ensures !r.Rejected?
    ensures r.Accepted? ==> r.value in arenas || r.value == failsafe
    ensures r.Accepted? && r.value != failsafe ==>
              ParseOutput(response, Several(PlacePatterns), MatchLast, false, find) == Picked(r.value)
  {
    match ParseOutput(response, Several(PlacePatterns), MatchLast, false, find)
    case Picked(t) => Accepted(Choose(t, arenas, failsafe))
    case _ => CallbackRaised
  }

  /** The object callback: the last match if it is one of the objects, else the failsafe. */
  function ObjectAnswer(response: string, objects: seq<string>, failsafe: string, find: (string, string) -> seq<string>): (r: Reaction<string>)
    ensures !r.Rejected?
    ensures r.Accepted? ==> r.value in objects || r.value == failsafe
    ensures r.Accepted? && r.value != failsafe ==>
              ParseOutput(response, Several(ObjectPatterns), MatchLast, false, find) == Picked(r.value)
  {
    match ParseOutput(response, Several(ObjectPatterns), MatchLast, false, find)
    case Picked(t) => Accepted(Choose(t, objects, failsafe))
    case _ => CallbackRaised
  }

  // ---------------------------------------------------------------- decisions

  /** The answer says no somewhere. */
  predicate Refuses(response: string)
  {
    Contains(response, "No") || Contains(response, "no") || Contains(response, "否") || Contains(response, "不")
  }

  /** The callback of `prompt_decide_chat`, `prompt_decide_chat_terminate` and
      `prompt_generate_chat_check_repeat`. */
  function YesNo(response: string): (r: Reaction<bool>)
    ensures r.Accepted?
  {
    Accepted(!Refuses(response))
  }

  /** The callback of `prompt_decide_wait`. */
  function Wait(response: string): (r: Reaction<bool>)
    ensures r.Accepted?
  {
    Accepted(Contains(response, "A"))
  }

  /** The answer is no exactly when one of the four markers occurs at some position. */
  lemma YesNoMarkers(response: string)
    ensures YesNo(response).value == false <==>
            (exists i :: OccursAt(response, "No", i)) || (exists i :: OccursAt(response, "no", i)) ||
            (exists i :: OccursAt(response, "否", i)) || (exists i :: OccursAt(response, "不", i))
  {
    ContainsIffOccurs(response, "No");
    ContainsIffOccurs(response, "no");
    ContainsIffOccurs(response, "否");
    ContainsIffOccurs(response, "不");
  }

  /** Waiting is chosen exactly when an "A" occurs at some position. */
  lemma WaitMarker(response: string)
    ensures Wait(response).value <==> exists i :: OccursAt(response, "A", i)
  {
    ContainsIffOccurs(response, "A");
  }

  /** The first of the attempts `from`, …, `retry - 1` that got a reply. */
  function FirstReply(oracle: nat -> Attempt, from: nat, retry: int): (r: Option<nat>)
    decreases retry - from
  {
    if from >= retry then None
    else if oracle(from).Replied? then Some(from)
    else FirstReply(oracle, from + 1, retry)
  }

  /** A callback that accepts every reply settles on the first reply there is. */
  lemma {:induction false} AcceptingSettlesOnFirstReply<T>(oracle: nat -> Attempt, callback: string -> Reaction<T>,
                                                          from: nat, retry: int)
    requires forall s :: callback(s).Accepted?
    ensures FirstAccepted(oracle, callback, from, retry) == FirstReply(oracle, from, retry)
    decreases retry - from
  {
    if from < retry {
      AcceptingSettlesOnFirstReply(oracle, callback, from + 1, retry);
    }
  }

  /** So a decision is read from the first reply, and is the failsafe `False` when every attempt
      failed. */
  lemma DecisionFromFirstReply(oracle: nat -> Attempt, retry: int)
    ensures var hit := FirstAccepted(oracle, YesNo, 0, retry);
            hit == FirstReply(oracle, 0, retry) &&
            (hit.Some? ==> Outcome(oracle(hit.value), YesNo) == Some(!Refuses(oracle(hit.value).meta)))
    ensures FirstAccepted(oracle, Wait, 0, retry) == FirstReply(oracle, 0, retry)
  {
    AcceptingSettlesOnFirstReply(oracle, YesNo, 0, retry);
    AcceptingSettlesOnFirstReply(oracle, Wait, 0, retry);
  }
}
