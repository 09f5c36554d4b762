/**
 * How an agent lays out its day (agent.py, `make_schedule`). The hours before waking are seeded
 * as asleep; the model's hourly answer is asked for again until its activities are varied enough;
 * every "H:MM" key becomes a minute of the day; and the minutes, sorted, are laid end to end as
 * plans, each running to the next start and the last to midnight. The current plan's
 * decomposition gets sub-plans with cumulative starts, and `revise_schedule` replaces them.
 *
 * The model's answers are parameters: `daily(k)` is the hourly dictionary of the k-th try, as the
 * daily callback returns it.
 */
module DayPlan {
  import opened Wrappers
  import opened Strings
  import opened Dicts
  import Clock
  import opened Schedules
  import Callbacks
  import Events
  import Actions

  /** The length of Python's `xs[:k]` on a list of length `n`. */
  function PrefixLen(k: int, n: nat): nat
  {
    if k >= n then n else if k >= 0 then k else if n + k > 0 then n + k else 0
  }

  /** `f"{i}:00"`. */
  function HourLabel(h: nat): string
  {
    NatStr(h) + ":00"
  }

  /** Different hours have different labels. */
  lemma HourLabelInjective(a: nat, b: nat)
    requires HourLabel(a) == HourLabel(b)
    ensures a == b
  {
    assert NatStr(a) == HourLabel(a)[..|HourLabel(a)| - 3];
    assert NatStr(b) == HourLabel(b)[..|HourLabel(b)| - 3];
    NatStrInjective(a, b);
  }

  /** The label of an hour of the day reads back, as "%H:%M", as the minute that hour starts. */
  lemma HourLabelParses(h: nat)
    requires h < 24
    ensures Clock.ParseClock(HourLabel(h)) == Some(60 * h)
  {
    var d := NatStr(h);
    var s := HourLabel(h);
    NoDay24(h);
    assert Split(s, ':') == [d, "00"] by {
      assert s == d + [':'] + "00";
      forall i | 0 <= i < |d| ensures d[i] != ':' {
        assert IsDigit(d[i]);
      }
      SplitAtFirst(d, ':', "00");
      SplitNoSep("00", ':');
    }
    assert Clock.Field(d, 23) == Some(h) by {
      DigitsOfNatStr(h);
    }
    assert Clock.Field("00", 59) == Some(0) by {
      assert "00"[..1] == "0";
    }
  }

  /** An hour of the day has at most two digits, and its label never starts "24:". */
  lemma NoDay24(h: nat)
    requires h < 24
    ensures |NatStr(h)| <= 2
    ensures !IsPrefix("24:", HourLabel(h))
  {
    var s := HourLabel(h);
    if h < 10 {
      assert s[1] == ':';
    } else {
      assert NatStr(h) == [DigitChar(h / 10), DigitChar(h % 10)];
      assert s[0] != '2' || s[1] != '4';
    }
  }

  /** `{h: s for h, s in seed[:wake_up]}`: the first hours of the day, up to waking, asleep. */
  function Seed(wakeUp: int): seq<(string, string)>
  {
    seq(PrefixLen(wakeUp, 24), i requires 0 <= i < PrefixLen(wakeUp, 24) => (HourLabel(i), Callbacks.Asleep))
  }

  /** One try: the seed, updated with the model's answer (`dict.update`). */
  function Attempt(seed: seq<(string, string)>, answer: seq<(string, string)>): seq<(string, string)>
  {
    FromPairs(seed + answer)
  }

  /** An hour is in the seed exactly when it comes before waking, as Python slices the list of 24
      hours; it is there once. */
  lemma SeedLastKeyed(wakeUp: int, h: nat)
    ensures LastKeyed(Seed(wakeUp), HourLabel(h)) == if h < PrefixLen(wakeUp, 24) then h else -1
  {
    var s := Seed(wakeUp);
    var i := LastKeyed(s, HourLabel(h));
    if h < PrefixLen(wakeUp, 24) {
      assert s[h].0 == HourLabel(h);
      HourLabelInjective(i, h);
    } else if i >= 0 {
      HourLabelInjective(i, h);
    }
  }

  /** An hour takes the answer's value when the answer names it, and otherwise stays as seeded:
      asleep before waking, absent after. */
  lemma SeededHours(wakeUp: int, answer: seq<(string, string)>, h: nat)
    ensures var j := LastKeyed(answer, HourLabel(h));
            Lookup(Attempt(Seed(wakeUp), answer), HourLabel(h)) ==
              if j >= 0 then Some(answer[j].1)
              else if h < PrefixLen(wakeUp, 24) then Some(Callbacks.Asleep) else None
  {
    var seed := Seed(wakeUp);
    UpdateLookup(seed, answer, HourLabel(h));
    FromPairsLastWins(seed, HourLabel(h));
    SeedLastKeyed(wakeUp, h);
  }

  /** `dict.update`: a key the update names takes its last value there; any other keeps its
      value, or its absence. */
  lemma {:induction false} UpdateLookup<K(!new), V>(a: seq<(K, V)>, b: seq<(K, V)>, k: K)
    ensures Lookup(FromPairs(a + b), k) ==
              if LastKeyed(b, k) >= 0 then Some(b[LastKeyed(b, k)].1) else Lookup(FromPairs(a), k)
    decreases |b|
  {
    if b == [] {
      assert a + b == a;
    } else {
      var front := b[..|b| - 1];
      var x := b[|b| - 1];
      assert (a + b)[..|a + b| - 1] == a + front;
      assert (a + b)[|a + b| - 1] == x;
      UpdateLookup(a, front, k);
      if x.0 != k && LastKeyed(front, k) >= 0 {
        assert b[LastKeyed(front, k)] == front[LastKeyed(front, k)];
      }
    }
  }

  /** `len(set(schedule.values())) >= diversity`. */
  predicate Diverse(d: seq<(string, string)>, diversity: int)
  {
    |Values(d)| >= diversity
  }

  /** `set(d.values())`. */
  function Values(d: seq<(string, string)>): (r: set<string>)
    decreases |d|
  {
    if d == [] then {} else Values(d[..|d| - 1]) + {d[|d| - 1].1}
  }

  /** The try a `for` loop over `range(maxTry)` with a `break` stops at, searching from `from`:
      the first try after which `stop` holds, or the last one allowed. */
  function FirstStop(stop: nat -> bool, maxTry: int, from: nat): (k: nat)
    requires from < maxTry
    ensures from <= k < maxTry
    ensures forall j: nat :: from <= j < k ==> !stop(j)
    ensures stop(k) || k == maxTry - 1
    decreases maxTry - from
  {
    if stop(from) || from == maxTry - 1 then from else FirstStop(stop, maxTry, from + 1)
  }

  /** The loop stops at the one try that is the first to satisfy `stop` or the last allowed. */
  lemma {:induction false} FirstStopAt(stop: nat -> bool, maxTry: int, from: nat, k: nat)
    requires from <= k < maxTry
    requires forall j: nat :: from <= j < k ==> !stop(j)
    requires stop(k) || k == maxTry - 1
    ensures FirstStop(stop, maxTry, from) == k
    decreases k - from
  {
    if from < k {
      FirstStopAt(stop, maxTry, from + 1, k);
    }
  }

  /** Whether the loop breaks after try `j`. */
  predicate Varied(wakeUp: int, daily: nat -> seq<(string, string)>, diversity: int, j: nat)
  {
    Diverse(Attempt(Seed(wakeUp), daily(j)), diversity)
  }

  /** The hourly dictionary `make_schedule` keeps: empty when no try is allowed. */
  function HourlyMap(wakeUp: int, daily: nat -> seq<(string, string)>, diversity: int, maxTry: int): seq<(string, string)>
  {
    if maxTry <= 0 then []
    else Attempt(Seed(wakeUp), daily(FirstStop((j: nat) => Varied(wakeUp, daily, diversity, j), maxTry, 0)))
  }

  /** The kept dictionary is that of the first diverse try, or of the last try when none is: at
      most `maxTry` answers are asked for, and none after a diverse one. */
  lemma {:induction false} HourlyMapTries(wakeUp: int, daily: nat -> seq<(string, string)>, diversity: int,
                                          maxTry: int, k: nat)
    requires k < maxTry
    requires forall j: nat :: j < k ==> !Varied(wakeUp, daily, diversity, j)
    requires Varied(wakeUp, daily, diversity, k) || k == maxTry - 1
    ensures HourlyMap(wakeUp, daily, diversity, maxTry) == Attempt(Seed(wakeUp), daily(k))
  {
    FirstStopAt((j: nat) => Varied(wakeUp, daily, diversity, j), maxTry, 0, k);
  }

  /** Every key reads as "%H:%M". */
  predicate Readable(d: seq<(string, string)>)
  {
    forall i :: 0 <= i < |d| ==> Clock.ParseClock(d[i].0).Some?
  }

  /** One entry with its key read as a minute of the day. */
  function AtMinute(e: (string, string)): (r: (int, string))
    requires Clock.ParseClock(e.0).Some?
    ensures Clock.ParseClock(e.0) == Some(r.0) && r.1 == e.1
    ensures 0 <= r.0 < Clock.MinutesPerDay
  {
    (Clock.ParseClock(e.0).value, e.1)
  }

  function Minutes(d: seq<(string, string)>): (r: seq<(int, string)>)
    requires Readable(d)
    ensures |r| == |d| && forall i :: 0 <= i < |d| ==> r[i] == AtMinute(d[i])
  {
    seq(|d|, i requires 0 <= i < |d| => AtMinute(d[i]))
  }

  /** `{_to_duration(k): v for k, v in schedule.items()}`: one unreadable key raises. */
  function ToMinutes(d: seq<(string, string)>): (r: Option<seq<(int, string)>>)
    ensures r.Some? <==> Readable(d)
    ensures r.Some? ==> DistinctKeys(r.value)
    ensures r.Some? ==> forall i :: 0 <= i < |r.value| ==> 0 <= r.value[i].0 < Clock.MinutesPerDay
  {
    if Readable(d) then
      var m := Minutes(d);
      FromPairsKeys(m);
      Some(FromPairs(m))
    else None
  }

  /** Every key of a dictionary built from pairs is the key of one of the pairs. */
  lemma FromPairsKeys<K(!new), V>(ps: seq<(K, V)>)
    ensures forall i :: 0 <= i < |FromPairs(ps)| ==> exists j :: 0 <= j < |ps| && ps[j].0 == FromPairs(ps)[i].0
  {
    var r := FromPairs(ps);
    forall i | 0 <= i < |r| ensures exists j :: 0 <= j < |ps| && ps[j].0 == r[i].0 {
      FromPairsLastWins(ps, r[i].0);
      assert HasKey(r, r[i].0);
    }
  }

  /** A minute takes the value of the last key that reads as it ("7:00" and "07:00" collide). */
  lemma {:induction false} ToMinutesLastWins(d: seq<(string, string)>, m: int)
    requires Readable(d)
    ensures var j := LastKeyed(Minutes(d), m);
            (j >= 0 ==> Clock.ParseClock(d[j].0) == Some(m) &&
                        forall i :: j < i < |d| ==> Clock.ParseClock(d[i].0) != Some(m)) &&
            (j < 0 ==> forall i :: 0 <= i < |d| ==> Clock.ParseClock(d[i].0) != Some(m)) &&
            Lookup(ToMinutes(d).value, m) == if j >= 0 then Some(d[j].1) else None
  {
    FromPairsLastWins(Minutes(d), m);
  }

  /** Non-decreasing. */
  predicate Ascending(xs: seq<int>)
  {
    forall i, j :: 0 <= i < j < |xs| ==> xs[i] <= xs[j]
  }

  function Insert(x: int, xs: seq<int>): (r: seq<int>)
    requires Ascending(xs)
    ensures |r| == |xs| + 1 && Ascending(r) && multiset(r) == multiset(xs) + multiset{x}
    ensures r[0] == x || (|xs| > 0 && r[0] == xs[0])
    decreases |xs|
  {
    if xs == [] || x <= xs[0] then
      AscendingCons(x, xs);
      [x] + xs
    else
      AscendingCons(xs[0], xs[1..]);
      var rest := Insert(x, xs[1..]);
      AscendingCons(xs[0], rest);
      assert xs == [xs[0]] + xs[1..];
      [xs[0]] + rest
  }

  /** A sequence headed by a value no larger than the rest is ascending exactly when the rest is. */
  lemma AscendingCons(x: int, xs: seq<int>)
    requires |xs| > 0 ==> x <= xs[0]
    ensures Ascending([x] + xs) <==> Ascending(xs)
  {
    var r := [x] + xs;
    if Ascending(xs) {
      forall i, j | 0 <= i < j < |r| ensures r[i] <= r[j] {
        assert r[j] == xs[j - 1];
        if i > 0 {
          assert r[i] == xs[i - 1];
        }
      }
    }
    if Ascending(r) {
      forall i, j | 0 <= i < j < |xs| ensures xs[i] <= xs[j] {
        assert xs[i] == r[i + 1] && xs[j] == r[j + 1];
      }
    }
  }

  /** `sorted(keys)`. */
  function Sort(xs: seq<int>): (r: seq<int>)
    ensures Ascending(r) && multiset(r) == multiset(xs)
    decreases |xs|
  {
    if xs == [] then []
    else
      assert xs == [xs[0]] + xs[1..];
      Insert(xs[0], Sort(xs[1..]))
  }

  /** Where the plan at `starts[k]` is cut off: the next start, or midnight after the last. */
  function Bound(starts: seq<int>, k: nat): int
  {
    if k < |starts| then starts[k] else Clock.MinutesPerDay
  }

  /** `end - start` of the plan at `starts[i]`. */
  function Gap(starts: seq<int>, i: nat): int
    requires i < |starts|
  {
    Bound(starts, i + 1) - starts[i]
  }

  /** What `add_plan` is called with, in order of start. */
  function Items(d: seq<(int, string)>, starts: seq<int>): (r: seq<(string, int)>)
    ensures |r| == |starts|
    ensures forall i :: 0 <= i < |starts| ==> r[i] == (Lookup(d, starts[i]).GetOr(""), Gap(starts, i))
  {
    seq(|starts|, i requires 0 <= i < |starts| => (Lookup(d, starts[i]).GetOr(""), Gap(starts, i)))
  }

  /** `add_plan` for each item in turn, with no decomposition. */
  function AddPlans(s: Schedule, items: seq<(string, int)>): (r: Schedule)
    ensures r.create == s.create && r.diversity == s.diversity && r.maxTry == s.maxTry
    decreases |items|
  {
    if items == [] then s
    else
      var m := |items| - 1;
      AddPlan(AddPlans(s, items[..m]), items[m].0, items[m].1, [])
  }

  /** Where the first added plan starts: where the schedule's last plan ends, or midnight. */
  function Base(s: Schedule): int
  {
    if s.plans == [] then 0 else End(s.plans[|s.plans| - 1])
  }

  /** The plans `items` become on `s`, each numbered by its place and starting after the base by
      the durations before it. */
  function Laid(s: Schedule, items: seq<(string, int)>): (r: seq<Plan>)
    ensures |r| == |items|
  {
    seq(|items|, i requires 0 <= i < |items| =>
      Plan(|s.plans| + i, items[i].0, Base(s) + Callbacks.Total(items[..i]), items[i].1, []))
  }

  /** Adding the items one by one appends exactly the laid-out plans: each starts where the one
      before ends, so after the base by the sum of the durations before it. */
  lemma {:induction false} AddPlansLaid(s: Schedule, items: seq<(string, int)>)
    ensures AddPlans(s, items) == s.(plans := s.plans + Laid(s, items))
    decreases |items|
  {
    if items == [] {
      assert s.plans + Laid(s, items) == s.plans;
    } else {
      AddPlansLaid(s, items[..|items| - 1]);
      AddPlanNext(s, items);
    }
  }

  /** Adding the next item after the laid-out plans lays out one more. */
  lemma AddPlanNext(s: Schedule, items: seq<(string, int)>)
    requires |items| > 0
    ensures var m := |items| - 1;
            AddPlan(s.(plans := s.plans + Laid(s, items[..m])), items[m].0, items[m].1, []) ==
              s.(plans := s.plans + Laid(s, items))
  {
    var m := |items| - 1;
    var prev := s.(plans := s.plans + Laid(s, items[..m]));
    var laid := Laid(s, items[..m]);
    LaidStart(s, items[..m]);
    LaidSnoc(s, items);
    var next := Laid(s, items)[m];
    assert next == Plan(|prev.plans|, items[m].0, Base(prev), items[m].1, []);
    AddPlanAppends(prev, items[m].0, items[m].1);
    assert s.plans + laid + [next] == s.plans + Laid(s, items);
  }

  lemma AddPlanAppends(s: Schedule, describe: string, duration: int)
    ensures AddPlan(s, describe, duration, []) == s.(plans := s.plans + [Plan(|s.plans|, describe, Base(s), duration, [])])
  {
  }

  /** Laying out one more item appends one plan and leaves the others as they were. */
  lemma LaidSnoc(s: Schedule, items: seq<(string, int)>)
    requires |items| > 0
    ensures Laid(s, items) == Laid(s, items[..|items| - 1]) + [Laid(s, items)[|items| - 1]]
  {
    var m := |items| - 1;
    forall i | 0 <= i < m ensures Laid(s, items[..m])[i] == Laid(s, items)[i] {
      assert items[..m][..i] == items[..i];
    }
  }

  /** The plan after the laid-out ones starts where the last of them ends, or at the base. */
  lemma LaidStart(s: Schedule, items: seq<(string, int)>)
    ensures var all := s.plans + Laid(s, items);
            (if all == [] then 0 else End(all[|all| - 1])) == Base(s) + Callbacks.Total(items)
  {
    if items != [] {
      var m := |items| - 1;
      assert (s.plans + Laid(s, items))[|s.plans| + m] == Laid(s, items)[m];
    }
  }

  /** The gaps before start `k` add up to the distance from the earliest start to `k`'s bound. */
  lemma {:induction false} GapsTelescope(starts: seq<int>, items: seq<(string, int)>, k: nat)
    requires |items| == |starts| > 0 && k <= |items|
    requires forall i :: 0 <= i < |items| ==> items[i].1 == Gap(starts, i)
    ensures Callbacks.Total(items[..k]) == Bound(starts, k) - starts[0]
  {
    if k > 0 {
      GapsTelescope(starts, items, k - 1);
      assert items[..k][..k - 1] == items[..k - 1];
    }
  }

  /** `make_schedule`'s plan construction on a schedule `s`, with the day stamped `create`. An
      unreadable key raises, which is `None`. */
  function MakeSchedule(s: Schedule, create: int, wakeUp: int, daily: nat -> seq<(string, string)>): (r: Option<Schedule>)
    ensures r.Some? <==> ToMinutes(HourlyMap(wakeUp, daily, s.diversity, s.maxTry)).Some?
    ensures r.Some? ==> r.value.create == Some(create) && |r.value.plans| >= |s.plans| && r.value.plans[..|s.plans|] == s.plans
  {
    match ToMinutes(HourlyMap(wakeUp, daily, s.diversity, s.maxTry))
    case None => None
    case Some(d) =>
      AddPlansLaid(s.(create := Some(create)), Items(d, Sort(Keys(d))));
      Some(Layout(s.(create := Some(create)), d))
  }

  /** The sorted keys of a dictionary of minutes: each key once, strictly increasing. */
  lemma SortedKeys(d: seq<(int, string)>)
    requires DistinctKeys(d)
    ensures var starts := Sort(Keys(d));
            |starts| == |d| &&
            (forall i, j :: 0 <= i < j < |starts| ==> starts[i] < starts[j]) &&
            (forall m :: m in starts <==> HasKey(d, m))
  {
    var ks := Keys(d);
    var starts := Sort(ks);
    assert |starts| == |d| by {
      assert |multiset(starts)| == |multiset(ks)|;
    }
    forall m ensures m in starts <==> HasKey(d, m) {
      KeysListed(d, m);
      assert m in starts <==> m in multiset(starts);
      assert m in ks <==> m in multiset(ks);
    }
    forall i, j | 0 <= i < j < |starts| ensures starts[i] < starts[j] {
      KeysDistinctSorted(d, starts, i, j);
    }
  }

  /** The plans laid out from a dictionary of minutes. */
  function Layout(s: Schedule, d: seq<(int, string)>): Schedule
  {
    AddPlans(s, Items(d, Sort(Keys(d))))
  }

  /** Laying out a dictionary of minutes: the `i`-th plan added belongs to the `i`-th smallest
      minute key, holds that minute's activity, and lasts until the next start (the last one
      until midnight). */
  lemma LayoutPlanAt(s: Schedule, d: seq<(int, string)>, i: nat)
    requires DistinctKeys(d) && i < |d|
    ensures |Sort(Keys(d))| == |d| && |Layout(s, d).plans| == |s.plans| + |d|
    ensures var starts := Sort(Keys(d));
            var q := Layout(s, d).plans[|s.plans| + i];
            q.idx == |s.plans| + i && Lookup(d, starts[i]) == Some(q.describe) && q.duration == Gap(starts, i)
  {
    var starts := Sort(Keys(d));
    var items := Items(d, starts);
    SortedKeys(d);
    AddPlansLaid(s, items);
    assert Layout(s, d).plans[|s.plans| + i] == Laid(s, items)[i];
    assert HasKey(d, starts[i]) by {
      assert starts[i] in starts;
    }
  }

  /** The `i`-th plan laid out starts as far after the base as its minute is after the earliest;
      so on a fresh schedule whose earliest key is midnight each plan starts at its own minute. */
  lemma LayoutStartAt(s: Schedule, d: seq<(int, string)>, i: nat)
    requires DistinctKeys(d) && i < |d|
    ensures |Sort(Keys(d))| == |d| && |Layout(s, d).plans| == |s.plans| + |d|
    ensures var starts := Sort(Keys(d));
            Layout(s, d).plans[|s.plans| + i].start == Base(s) + starts[i] - starts[0]
  {
    var starts := Sort(Keys(d));
    var items := Items(d, starts);
    assert |starts| == |d| by {
      assert |multiset(starts)| == |multiset(Keys(d))|;
    }
    AddPlansLaid(s, items);
    assert Layout(s, d).plans[|s.plans| + i] == Laid(s, items)[i];
    LaidStartAt(s, starts, items, i);
  }

  /** A plan laid out from gaps between sorted starts begins as far after the base as its start
      is after the first. */
  lemma LaidStartAt(s: Schedule, starts: seq<int>, items: seq<(string, int)>, i: nat)
    requires |items| == |starts| && i < |items|
    requires forall j :: 0 <= j < |items| ==> items[j].1 == Gap(starts, j)
    ensures Laid(s, items)[i].start == Base(s) + starts[i] - starts[0]
  {
    GapsTelescope(starts, items, i);
    assert Bound(starts, i) == starts[i];
  }

  /** The laid-out plans last `1440 - earliest` minutes in all: the last ends at midnight shifted
      by the base, less the earliest minute. */
  lemma LayoutEnds(s: Schedule, d: seq<(int, string)>)
    requires DistinctKeys(d) && |d| > 0
    ensures |Sort(Keys(d))| == |d| && |Layout(s, d).plans| == |s.plans| + |d|
    ensures var p := Layout(s, d).plans;
            End(p[|p| - 1]) == Base(s) + Clock.MinutesPerDay - Sort(Keys(d))[0]
  {
    var starts := Sort(Keys(d));
    var items := Items(d, starts);
    var m := |items| - 1;
    SortedKeys(d);
    AddPlansLaid(s, items);
    var p := Layout(s, d).plans;
    assert p[|p| - 1] == Laid(s, items)[m];
    GapsTelescope(starts, items, |items|);
    assert items[..|items|] == items;
    assert items[..|items|][..m] == items[..m];
  }

  /** On a contiguous schedule the new plans keep it contiguous. */
  lemma MakeScheduleContiguous(s: Schedule, create: int, wakeUp: int, daily: nat -> seq<(string, string)>)
    requires MakeSchedule(s, create, wakeUp, daily).Some? && Contiguous(s.plans)
    ensures Contiguous(MakeSchedule(s, create, wakeUp, daily).value.plans)
  {
    var d := ToMinutes(HourlyMap(wakeUp, daily, s.diversity, s.maxTry)).value;
    ContiguousAfter(s.(create := Some(create)), Items(d, Sort(Keys(d))));
  }

  /** A key occurs once among the keys of a dictionary. */
  lemma KeysDistinctSorted(d: seq<(int, string)>, starts: seq<int>, i: nat, j: nat)
    requires DistinctKeys(d) && Ascending(starts) && multiset(starts) == multiset(Keys(d))
    requires i < j < |starts|
    ensures starts[i] < starts[j]
  {
    if starts[i] == starts[j] {
      var v := starts[i];
      var ks := Keys(d);
      assert multiset(starts)[v] >= 2 by {
        assert starts == starts[..j] + starts[j..];
        assert v in multiset(starts[..j]) by { assert starts[..j][i] == v; }
        assert v in multiset(starts[j..]) by { assert starts[j..][0] == v; }
      }
      AtMostOnce(ks, v);
    }
  }

  /** Keys of a dictionary are pairwise different, so each has multiplicity at most one. */
  lemma {:induction false} AtMostOnce(ks: seq<int>, v: int)
    requires forall i, j :: 0 <= i < j < |ks| ==> ks[i] != ks[j]
    ensures multiset(ks)[v] <= 1
    decreases |ks|
  {
    if ks != [] {
      var t := ks[1..];
      assert ks == [ks[0]] + t;
      AtMostOnce(t, v);
      if ks[0] == v {
        assert v !in t by {
          forall k | 0 <= k < |t| ensures t[k] != v {
            assert t[k] == ks[k + 1];
          }
        }
      }
    }
  }

  /** Laying out the gaps keeps a contiguous schedule contiguous. */
  lemma {:induction false} ContiguousAfter(s: Schedule, items: seq<(string, int)>)
    requires Contiguous(s.plans)
    ensures Contiguous(AddPlans(s, items).plans)
    decreases |items|
  {
    if items != [] {
      var n := |items| - 1;
      ContiguousAfter(s, items[..n]);
      AddPlanContiguous(AddPlans(s, items[..n]), items[n].0, items[n].1, []);
    }
  }

  /** The sub-plans of a decomposition: numbered from 0, each starting where the previous ends, the
      first at `start`. */
  function SubPlans(items: seq<(string, int)>, start: int): (r: seq<Plan>)
    ensures |r| == |items|
    ensures forall i :: 0 <= i < |r| ==>
              r[i].idx == i && r[i].describe == items[i].0 && r[i].duration == items[i].1 && r[i].decompose == []
    decreases |items|
  {
    if items == [] then []
    else
      var n := |items| - 1;
      SubPlans(items[..n], start) + [Plan(n, items[n].0, start + Callbacks.Total(items[..n]), items[n].1, [])]
  }

  /** `plan["decompose"] = decompose`. */
  function DecomposePlan(p: Plan, items: seq<(string, int)>): (r: Plan)
    ensures r.idx == p.idx && r.describe == p.describe && r.start == p.start && r.duration == p.duration
    ensures |r.decompose| == |items|
  {
    p.(decompose := SubPlans(items, p.start))
  }

  /** The sub-plans run back to back from the plan's start, and together last the sum of the
      durations, so they cover the plan exactly when the durations add up to at least its length. */
  lemma {:induction false} SubPlansCumulative(items: seq<(string, int)>, start: int)
    ensures var r := SubPlans(items, start);
            (r != [] ==> r[0].start == start && End(r[|r| - 1]) == start + Callbacks.Total(items)) &&
            (forall i :: 1 <= i < |r| ==> r[i].start == End(r[i - 1]))
    decreases |items|
  {
    if items != [] {
      var n := |items| - 1;
      var r := SubPlans(items, start);
      var prev := SubPlans(items[..n], start);
      SubPlansCumulative(items[..n], start);
      assert r == prev + [r[n]];
      assert r[n].start == start + Callbacks.Total(items[..n]);
      if n > 0 {
        assert forall i :: 0 <= i < n ==> r[i] == prev[i];
        assert End(prev[n - 1]) == start + Callbacks.Total(items[..n]);
      }
    }
  }

  /** With non-negative durations the decomposition is chained in the sense the revise prompt
      relies on, and a decomposition whose durations reach the plan's length ends no earlier than
      the plan (the decompose callback guarantees this for every answer it accepts). */
  lemma DecomposedChained(p: Plan, items: seq<(string, int)>)
    requires forall i :: 0 <= i < |items| ==> items[i].1 >= 0
    ensures Callbacks.Chained(DecomposePlan(p, items).decompose)
    ensures items != [] && Callbacks.Total(items) >= p.duration ==>
              var subs := DecomposePlan(p, items).decompose;
              subs[0].start == p.start && End(subs[|subs| - 1]) >= End(p)
  {
    SubPlansCumulative(items, p.start);
  }
  /** Two schedules that differ at most in the sub-plans of their plans. */
  predicate SameFrames(s: Schedule, t: Schedule)
  {
    t.create == s.create && t.diversity == s.diversity && t.maxTry == s.maxTry && |t.plans| == |s.plans| &&
    forall j :: 0 <= j < |s.plans| ==>
      t.plans[j].idx == s.plans[j].idx && t.plans[j].describe == s.plans[j].describe &&
      t.plans[j].start == s.plans[j].start && t.plans[j].duration == s.plans[j].duration
  }

  /** Plans that end at the same minutes are open at the same minutes. */
  lemma {:induction false} FirstOpenSameEnds(ps: seq<Plan>, qs: seq<Plan>, now: int)
    requires |ps| == |qs| && forall j :: 0 <= j < |ps| ==> End(ps[j]) == End(qs[j])
    ensures FirstOpen(ps, now) == FirstOpen(qs, now)
    decreases |ps|
  {
    if ps != [] {
      FirstOpenSameEnds(ps[1..], qs[1..], now);
    }
  }

  /** Changing only sub-plans keeps the same plan current and keeps a contiguous schedule
      contiguous. */
  lemma SameFramesKeepCurrent(s: Schedule, t: Schedule, now: int)
    requires SameFrames(s, t) && s.plans != []
    ensures CurrentPlan(t, now).value.plan == CurrentPlan(s, now).value.plan
    ensures Contiguous(s.plans) ==> Contiguous(t.plans)
  {
    FirstOpenSameEnds(s.plans, t.plans, now);
  }

  /** The current plan with its sub-plans replaced; an empty schedule raises. */
  function WithSubPlans(s: Schedule, now: int, subs: seq<Plan>): (r: Option<Schedule>)
    ensures r.None? <==> s.plans == []
    ensures r.Some? ==> SameFrames(s, r.value)
    ensures r.Some? ==> var i := CurrentPlan(s, now).value.plan;
              r.value.plans[i].decompose == subs &&
              forall j :: 0 <= j < |s.plans| && j != i ==> r.value.plans[j] == s.plans[j]
  {
    match CurrentPlan(s, now)
    case None => None
    case Some(c) => Some(s.(plans := s.plans[c.plan := s.plans[c.plan].(decompose := subs)]))
  }

  /** The end of `make_schedule` at minute `now`: the current plan, when `decompose` allows it, gets
      the model's answer `answer` as sub-plans laid out from its start; otherwise nothing changes.
      An empty schedule raises. */
  function DecomposeCurrent(s: Schedule, now: int, answer: seq<(string, int)>): (r: Option<Schedule>)
    ensures r.None? <==> s.plans == []
    ensures r.Some? ==> SameFrames(s, r.value)
    ensures r.Some? ==> var i := CurrentPlan(s, now).value.plan;
              (forall j :: 0 <= j < |s.plans| && j != i ==> r.value.plans[j] == s.plans[j]) &&
              (Decompose(s.plans[i]) ==> r.value.plans[i].decompose == SubPlans(answer, s.plans[i].start)) &&
              (!Decompose(s.plans[i]) ==> r.value == s)
  {
    match CurrentPlan(s, now)
    case None => None
    case Some(c) =>
      var p := s.plans[c.plan];
      if Decompose(p) then WithSubPlans(s, now, SubPlans(answer, p.start)) else Some(s)
  }

  /** A non-empty answer settles the current plan: asking again at the same minute changes nothing,
      whatever the model says then, and a contiguous schedule stays contiguous. */
  lemma DecomposeCurrentSettles(s: Schedule, now: int, answer: seq<(string, int)>, again: seq<(string, int)>)
    requires s.plans != [] && answer != []
    ensures var r := DecomposeCurrent(s, now, answer).value;
            DecomposeCurrent(r, now, again) == Some(r) &&
            (Contiguous(s.plans) ==> Contiguous(r.plans))
  {
    var r := DecomposeCurrent(s, now, answer).value;
    SameFramesKeepCurrent(s, r, now);
    var i := CurrentPlan(s, now).value.plan;
    if Decompose(s.plans[i]) {
      assert |r.plans[i].decompose| == |answer|;
      DecomposeIff(r.plans[i]);
    }
  }

  /** `revise_schedule(event, start, duration)` at instant `clock`, minute `now` of the day: the
      agent takes up the action, and the current plan, when it has sub-plans, takes the revised ones
      `revised` (what the revise prompt settles on; its failsafe is the old sub-plans). An empty
      schedule raises. */
  function ReviseSchedule(s: Schedule, now: int, clock: int, e: Events.Event, start: Option<int>, duration: int,
                          revised: seq<Plan>): (r: Option<(Actions.Action, Schedule)>)
    ensures r.None? <==> s.plans == []
    ensures r.Some? ==> r.value.0.event == e && r.value.0.objEvent.None? && r.value.0.duration == duration
    ensures r.Some? ==> r.value.0.start == (if start.Some? then start.value else clock)
    ensures r.Some? ==> SameFrames(s, r.value.1)
    ensures r.Some? ==> var i := CurrentPlan(s, now).value.plan;
              (forall j :: 0 <= j < |s.plans| && j != i ==> r.value.1.plans[j] == s.plans[j]) &&
              (|s.plans[i].decompose| > 0 ==> r.value.1.plans[i].decompose == revised) &&
              (|s.plans[i].decompose| == 0 ==> r.value.1 == s)
  {
    var a := Actions.NewAction(e, None, start, duration, clock);
    match CurrentPlan(s, now)
    case None => None
    case Some(c) =>
      if |s.plans[c.plan].decompose| > 0 then
        match WithSubPlans(s, now, revised)
        case Some(t) => Some((a, t))
        case None => None
      else Some((a, s))
  }

  /** Revising keeps the same plan current and a contiguous schedule contiguous; a plan that was
      never decomposed is not revised, so it can still be decomposed. */
  lemma ReviseKeepsFrames(s: Schedule, now: int, clock: int, e: Events.Event, start: Option<int>, duration: int,
                          revised: seq<Plan>)
    requires s.plans != []
    ensures var t := ReviseSchedule(s, now, clock, e, start, duration, revised).value.1;
            CurrentPlan(t, now).value.plan == CurrentPlan(s, now).value.plan &&
            (Contiguous(s.plans) ==> Contiguous(t.plans)) &&
            (Decompose(s.plans[CurrentPlan(s, now).value.plan]) ==> t == s)
  {
    var t := ReviseSchedule(s, now, clock, e, start, duration, revised).value.1;
    SameFramesKeepCurrent(s, t, now);
    DecomposeIff(s.plans[CurrentPlan(s, now).value.plan]);
  }
}
