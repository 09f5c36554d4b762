/**
 * How two agents who meet decide to talk or to wait, and how a conversation runs
 * (agent.py, `_skip_react`, `_chat_with`, `schedule_chat`, `_wait_other`).
 *
 * The language model's parts are parameters: `says(speaker, transcript)` is the next line a
 * speaker produces, `repeats(speaker, transcript, line)` whether that line repeats the talk, and
 * `ends(speaker, transcript)` whether the speaker judges the topic closed. Instants are seconds.
 */
module Conversation {
  import opened Wrappers
  import opened Strings
  import opened Events
  import opened Actions
  import Clock
  import Tiles
  import Schedules
  import DayPlan

  /** A line of a conversation: who said it and what. */
  type Turn = (string, string)

  /** What one agent shows the other when they meet. */
  datatype Side = Side(name: string, plans: nat, event: Event, path: seq<Tiles.Coord>)

  /** `_skip(event)`: no place, asleep in either language, or a plan not yet started. */
  predicate Unavailable(e: Event)
  {
    e.address == [] || Contains(GetDescribe(e, false), "sleeping") || Contains(GetDescribe(e, false), "睡觉") ||
    e.pred == "待开始"
  }

  /** `_skip_react(other)`: from 23:00 on, or when either side is unavailable. */
  predicate SkipReact(now: int, mine: Event, theirs: Event)
  {
    Clock.DailyHour(now) >= 23 || Unavailable(mine) || Unavailable(theirs)
  }

  /** The guards of `_chat_with`, in the order the source tries them. `lastChat` is the creation
      instant of the first memory `retrieve_chats(other.name)` answers, if any: the search's best
      match, which need not be the latest chat; `decide` is the model's answer to "chat now?". */
  predicate MayChat(now: int, me: Side, other: Side, lastChat: Option<int>, decide: bool)
  {
    if me.plans < 1 || other.plans < 1 then false
    else if SkipReact(now, me.event, other.event) then false
    else if other.path != [] then false
    else if Fit(me.event, "", "对话", "") || Fit(other.event, "", "对话", "") then false
    else if lastChat.Some? && Clock.GetDelta(lastChat.value, now, Clock.Minutes) < 60 then false
    else decide
  }

  /** A chat is refused exactly for one of these reasons: a side has no schedule yet, it is
      23:00 or later, a side is unavailable, the other is on its way somewhere, a side is
      already talking, the first chat memory retrieved about the other was made less than an
      hour ago, or the model says no. */
  lemma ChatRefusedIff(now: int, me: Side, other: Side, lastChat: Option<int>, decide: bool)
    ensures !MayChat(now, me, other, lastChat, decide) <==>
              me.plans == 0 || other.plans == 0 || Clock.DailyHour(now) >= 23 ||
              Unavailable(me.event) || Unavailable(other.event) || |other.path| > 0 ||
              me.event.pred == "对话" || other.event.pred == "对话" ||
              (lastChat.Some? && Clock.GetDelta(lastChat.value, now, Clock.Minutes) < 60) || !decide
  {
  }

  /** Who speaks the `i`-th line: the initiator on even lines, the responder on odd ones. */
  function Speaker(i: nat, me: string, other: string): string
  {
    if i % 2 == 0 then me else other
  }

  /** Every line is its speaker's answer to the lines before it, speakers alternating. */
  predicate Said(chats: seq<Turn>, me: string, other: string, says: (string, seq<Turn>) -> string)
  {
    forall i :: 0 <= i < |chats| ==> chats[i] == (Speaker(i, me, other), says(Speaker(i, me, other), chats[..i]))
  }

  /** Whether the talk stops after `chats`: from the second round on, the last speaker closes the
      topic or the next line would repeat the talk. */
  predicate Stopped(chats: seq<Turn>, me: string, other: string, says: (string, seq<Turn>) -> string,
                    repeats: (string, seq<Turn>, string) -> bool, ends: (string, seq<Turn>) -> bool)
  {
    var n := |chats|;
    n >= 2 &&
    (ends(Speaker(n - 1, me, other), chats) ||
     repeats(Speaker(n, me, other), chats, says(Speaker(n, me, other), chats)))
  }

  /** The talk has not stopped at any point before its end. */
  predicate Unbroken(chats: seq<Turn>, me: string, other: string, says: (string, seq<Turn>) -> string,
                     repeats: (string, seq<Turn>, string) -> bool, ends: (string, seq<Turn>) -> bool)
  {
    forall j :: 2 <= j < |chats| ==> !Stopped(chats[..j], me, other, says, repeats, ends)
  }

  /** The conversation loop of `_chat_with`: at most `chatIter` rounds, the initiator first in
      each. In round 0 neither check runs before the responder's closing check; from round 1 each
      line is first checked for repetition, and each speaker may close the topic after speaking. */
  method Converse(me: string, other: string, chatIter: int, says: (string, seq<Turn>) -> string,
                  repeats: (string, seq<Turn>, string) -> bool, ends: (string, seq<Turn>) -> bool)
    returns (chats: seq<Turn>)
    ensures Said(chats, me, other, says)
    ensures chatIter <= 0 ==> chats == []
    ensures chatIter >= 1 ==> 2 <= |chats| <= 2 * chatIter
    ensures Unbroken(chats, me, other, says, repeats, ends)
    ensures |chats| < 2 * chatIter ==> Stopped(chats, me, other, says, repeats, ends)
  {
    chats := [];
    var i := 0;
    while i < chatIter
      invariant 0 <= i <= (if chatIter > 0 then chatIter else 0) && |chats| == 2 * i
      invariant Said(chats, me, other, says)
      invariant Unbroken(chats, me, other, says, repeats, ends)
      invariant i > 0 ==> !ends(other, chats)
    {
      var stop;
      chats, stop := Opening(chats, i, me, other, says, repeats, ends);
      if stop {
        return;
      }
      chats, stop := Reply(chats, i, me, other, says, repeats, ends);
      if stop {
        return;
      }
      i := i + 1;
    }
  }

  /** The initiator's half of round `i`: from round 1 on, a repeating line ends the talk before
      it is said, and the initiator may close the topic after saying it. */
  method Opening(chats: seq<Turn>, i: nat, me: string, other: string, says: (string, seq<Turn>) -> string,
                 repeats: (string, seq<Turn>, string) -> bool, ends: (string, seq<Turn>) -> bool)
    returns (r: seq<Turn>, stop: bool)
    requires |chats| == 2 * i && Said(chats, me, other, says) && Unbroken(chats, me, other, says, repeats, ends)
    requires i > 0 ==> !ends(other, chats)
    ensures Said(r, me, other, says) && Unbroken(r, me, other, says, repeats, ends)
    ensures stop ==> 2 <= |r| <= 2 * i + 1 && Stopped(r, me, other, says, repeats, ends)
    ensures !stop ==> |r| == 2 * i + 1 && (i > 0 ==> !ends(me, r))
  {
    SpeakerParity(i, me, other);
    var text := says(me, chats);
    if i > 0 && repeats(me, chats, text) {
      return chats, true;
    }
    assert Speaker(|chats|, me, other) == me;
    assert !Stopped(chats, me, other, says, repeats, ends) by {
      if i > 0 {
        SpeakerParity(i - 1, me, other);
        assert |chats| - 1 == 2 * (i - 1) + 1;
      }
    }
    r := Append(chats, me, other, says, repeats, ends, me);
    stop := i > 0 && ends(me, r);
  }

  /** The responder's half of round `i`: from round 1 on, a repeating line ends the talk before
      it is said; in every round the responder may close the topic after speaking. */
  method Reply(chats: seq<Turn>, i: nat, me: string, other: string, says: (string, seq<Turn>) -> string,
               repeats: (string, seq<Turn>, string) -> bool, ends: (string, seq<Turn>) -> bool)
    returns (r: seq<Turn>, stop: bool)
    requires |chats| == 2 * i + 1 && Said(chats, me, other, says) && Unbroken(chats, me, other, says, repeats, ends)
    requires i > 0 ==> !ends(me, chats)
    ensures Said(r, me, other, says) && Unbroken(r, me, other, says, repeats, ends)
    ensures stop ==> 2 <= |r| <= 2 * i + 2 && Stopped(r, me, other, says, repeats, ends)
    ensures !stop ==> |r| == 2 * i + 2 && !ends(other, r)
  {
    SpeakerParity(i, me, other);
    assert |chats| - 1 == 2 * i;
    var text := says(other, chats);
    if i > 0 && repeats(other, chats, text) {
      return chats, true;
    }
    assert Speaker(|chats|, me, other) == other;
    assert !Stopped(chats, me, other, says, repeats, ends) by {
      assert Speaker(|chats| - 1, me, other) == me;
    }
    r := Append(chats, me, other, says, repeats, ends, other);
    assert |r| - 1 == 2 * i + 1;
    assert Speaker(|r| - 1, me, other) == other;
    stop := ends(other, r);
  }

  /** Round `i` opens with the initiator and closes with the responder. */
  lemma SpeakerParity(i: nat, me: string, other: string)
    ensures Speaker(2 * i, me, other) == me && Speaker(2 * i + 1, me, other) == other
  {
  }

  /** One more line, spoken by whoever's turn it is, keeps the transcript as said and unbroken
      when the talk had not stopped. */
  method Append(chats: seq<Turn>, me: string, other: string, says: (string, seq<Turn>) -> string,
                repeats: (string, seq<Turn>, string) -> bool, ends: (string, seq<Turn>) -> bool, who: string)
    returns (r: seq<Turn>)
    requires who == Speaker(|chats|, me, other)
    requires Said(chats, me, other, says) && Unbroken(chats, me, other, says, repeats, ends)
    requires !Stopped(chats, me, other, says, repeats, ends)
    ensures r == chats + [(who, says(who, chats))]
    ensures Said(r, me, other, says) && Unbroken(r, me, other, says, repeats, ends)
  {
    r := chats + [(who, says(who, chats))];
    assert r[..|chats|] == chats;
    forall j | 2 <= j < |r| ensures !Stopped(r[..j], me, other, says, repeats, ends) {
      assert r[..j] == chats[..j];
    }
    forall i | 0 <= i < |r| ensures r[i] == (Speaker(i, me, other), says(Speaker(i, me, other), r[..i])) {
      if i < |chats| {
        assert r[..i] == chats[..i];
      }
    }
  }

  /** The number of characters said. */
  function Characters(chats: seq<Turn>): (n: nat)
  {
    if chats == [] then 0 else Characters(chats[..|chats| - 1]) + |chats[|chats| - 1].1|
  }

  /** `int(sum(len(text)) / 240)`: a minute for every 240 characters, rounded down. */
  function ChatDuration(chats: seq<Turn>): (d: int)
    ensures d >= 0 && 240 * d <= Characters(chats) < 240 * (d + 1)
  {
    TruncDiv(Characters(chats), 240)
  }

  /** Talking longer never makes the conversation shorter. */
  lemma {:induction false} ChatDurationMonotone(a: seq<Turn>, b: seq<Turn>)
    ensures Characters(a) <= Characters(a + b)
    ensures ChatDuration(a) <= ChatDuration(a + b)
    decreases |b|
  {
    if b == [] {
      assert a + b == a;
    } else {
      var m := |b| - 1;
      ChatDurationMonotone(a, b[..m]);
      assert (a + b)[..|a + b| - 1] == a + b[..m];
      assert (a + b)[|a + b| - 1] == b[m];
      assert Characters(a + b) == Characters(a + b[..m]) + |b[m].1|;
    }
  }

  /** An agent's part in a finished chat: its log of chats and its action. */
  datatype Talker = Talker(name: string, chats: seq<Turn>, action: Option<Action>)

  /** `schedule_chat`: the transcript is added to the agent's chats and the agent's action
      becomes "<name> 对话 <other>" at `address`, described by the summary, for the chat's start
      and duration (`revise_schedule`; `ScheduleChatRevised` adds the revision of the day's plan). */
  function ScheduleChat(a: Talker, chats: seq<Turn>, summary: string, start: int, duration: int,
                        other: string, address: seq<string>): (r: Talker)
    ensures r.name == a.name && |r.chats| == |a.chats| + |chats|
    ensures r.chats[..|a.chats|] == a.chats && r.chats[|a.chats|..] == chats
    ensures r.action.Some? && r.action.value.objEvent.None?
    ensures Fit(r.action.value.event, a.name, "对话", other) && r.action.value.event.describe == summary
    ensures r.action.value.event.address == address
  {
    var e := NewEvent(a.name, "对话", other, address, summary, "💬");
    a.(chats := a.chats + chats, action := Some(Action(e, None, start, duration)))
  }

  /** `schedule_chat` with its call to `revise_schedule`: besides the chat's action, the current
      plan of the day `s` at minute `minute` takes the revised sub-plans `revised` when it has
      sub-plans, and no other plan changes. An empty schedule raises. */
  function ScheduleChatRevised(a: Talker, s: Schedules.Schedule, minute: int, clock: int, chats: seq<Turn>,
                               summary: string, start: int, duration: int, other: string, address: seq<string>,
                               revised: seq<Schedules.Plan>): (r: Option<(Talker, Schedules.Schedule)>)
    ensures r.None? <==> s.plans == []
    ensures r.Some? ==> r.value.0 == ScheduleChat(a, chats, summary, start, duration, other, address)
    ensures r.Some? ==> DayPlan.SameFrames(s, r.value.1)
    ensures r.Some? ==> var i := Schedules.CurrentPlan(s, minute).value.plan;
              (forall j :: 0 <= j < |s.plans| && j != i ==> r.value.1.plans[j] == s.plans[j]) &&
              (|s.plans[i].decompose| > 0 ==> r.value.1.plans[i].decompose == revised) &&
              (|s.plans[i].decompose| == 0 ==> r.value.1 == s)
  {
    var e := NewEvent(a.name, "对话", other, address, summary, "💬");
    match DayPlan.ReviseSchedule(s, minute, clock, e, Some(start), duration, revised)
    case None => None
    case Some((act, t)) => Some((a.(chats := a.chats + chats, action := Some(act)), t))
  }

  /** After a chat both agents hold the same transcript and summary, run for the same window,
      each talking to the other, and neither will start another chat while this one lasts. */
  lemma ChatShared(a: Talker, b: Talker, chats: seq<Turn>, summary: string, start: int,
                   addrA: seq<string>, addrB: seq<string>, now: int, lastChat: Option<int>, decide: bool,
                   plansA: nat, plansB: nat, pathA: seq<Tiles.Coord>, pathB: seq<Tiles.Coord>)
    requires a.name != "" && b.name != ""
    ensures var d := ChatDuration(chats);
            var a' := ScheduleChat(a, chats, summary, start, d, b.name, addrA);
            var b' := ScheduleChat(b, chats, summary, start, d, a.name, addrB);
            var ea := a'.action.value;
            var eb := b'.action.value;
            ea.start == eb.start == start && End(ea) == End(eb) == start + 60 * d &&
            ea.event.describe == eb.event.describe == summary &&
            ea.event.obj == b.name && eb.event.obj == a.name &&
            !MayChat(now, Side(a.name, plansA, ea.event, pathA), Side(b.name, plansB, eb.event, pathB), lastChat, decide)
  {
  }

  /** What `_wait_other` makes of its guards: the agent waits when nothing is skipped, it is
      walking, it heads for the other's place and the model agrees. Its action then is
      "<name> waiting to start <what it was doing>" from `now` until the other's action ends,
      counted in whole minutes toward zero. The method returns nothing in every case, so the
      caller never counts waiting as a reaction: the first component is always false. */
  function WaitOther(now: int, me: Side, other: Side, otherAddress: seq<string>, otherEnd: int, decide: bool)
    : (r: (bool, Option<Action>))
    ensures !r.0
    ensures r.1.Some? <==>
              !SkipReact(now, me.event, other.event) && me.path != [] && me.event.address == otherAddress && decide
    ensures r.1.Some? ==>
              r.1.value.start == now && r.1.value.objEvent.None? &&
              r.1.value.duration == TruncDiv(otherEnd - now, 60) &&
              r.1.value.event ==
                Event(me.name, "waiting to start", Or(GetDescribe(me.event, false), DefaultObject), "", me.event.address, "⌛")
  {
    if SkipReact(now, me.event, other.event) then (false, None)
    else if me.path == [] then (false, None)
    else if me.event.address != otherAddress then (false, None)
    else if !decide then (false, None)
    else
      var e := NewEvent(me.name, "waiting to start", GetDescribe(me.event, false), me.event.address, "", "⌛");
      (false, Some(NewAction(e, None, Some(now), TruncDiv(otherEnd - now, 60), now)))
  }

  /** `_wait_other` with its call to `revise_schedule`: when the agent does not wait, its action
      and its day `s` stay as they were (no action); when it waits, it takes the waiting action and
      the current plan at minute `minute` takes the revised sub-plans `revised` when it has
      sub-plans. Waiting with an empty schedule raises. */
  function WaitOtherRevised(now: int, me: Side, other: Side, otherAddress: seq<string>, otherEnd: int, decide: bool,
                            s: Schedules.Schedule, minute: int, revised: seq<Schedules.Plan>)
    : (r: Option<(Option<Action>, Schedules.Schedule)>)
    ensures var w := WaitOther(now, me, other, otherAddress, otherEnd, decide).1;
            (r.None? <==> w.Some? && s.plans == []) &&
            (w.None? ==> r == Some((None, s))) &&
            (r.Some? && w.Some? ==> r.value.0 == w && DayPlan.SameFrames(s, r.value.1))
    ensures r.Some? && r.value.0.Some? ==> var i := Schedules.CurrentPlan(s, minute).value.plan;
              (forall j :: 0 <= j < |s.plans| && j != i ==> r.value.1.plans[j] == s.plans[j]) &&
              (|s.plans[i].decompose| > 0 ==> r.value.1.plans[i].decompose == revised) &&
              (|s.plans[i].decompose| == 0 ==> r.value.1 == s)
  {
    match WaitOther(now, me, other, otherAddress, otherEnd, decide).1
    case None => Some((None, s))
    case Some(w) =>
      match DayPlan.ReviseSchedule(s, minute, now, w.event, Some(w.start), w.duration, revised)
      case None => None
      case Some((act, t)) => Some((Some(act), t))
  }

  /** The wait ends in the last minute before the other's action does; if the other is already
      done, the wait is over as soon as it starts. */
  lemma WaitUntilOther(now: int, me: Side, other: Side, otherAddress: seq<string>, otherEnd: int, decide: bool)
    requires WaitOther(now, me, other, otherAddress, otherEnd, decide).1.Some?
    ensures var a := WaitOther(now, me, other, otherAddress, otherEnd, decide).1.value;
            (otherEnd >= now ==> End(a) <= otherEnd < End(a) + 60) &&
            (otherEnd <= now ==> Finished(a, now))
  {
  }
}
