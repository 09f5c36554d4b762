/**
 * What an agent is doing (memory/action.py): an event on the agent, an optional event on the
 * object it uses, and a time window. `start` is an instant in seconds, `duration` is in minutes.
 */
module Actions {
  import opened Wrappers
  import opened Events

  datatype Action = Action(event: Event, objEvent: Option<Event>, start: int, duration: int)

  /** `end`: the start plus `duration` minutes. */
  function End(a: Action): int
  {
    a.start + 60 * a.duration
  }

  /** The constructor: an omitted start is the clock's current instant `now`. */
  function NewAction(event: Event, objEvent: Option<Event>, start: Option<int>, duration: int, now: int): (r: Action)
    ensures r.event == event && r.objEvent == objEvent && r.duration == duration
    ensures r.start == (if start.Some? then start.value else now)
    ensures End(r) - r.start == 60 * duration
  {
    Action(event, objEvent, start.GetOr(now), duration)
  }

  /** `finished()` at the clock's instant `now`. */
  predicate Finished(a: Action, now: int)
  {
    if a.duration == 0 then true
    else if a.event.address == [] then true
    else now > End(a)
  }

  /** An action is over when it has no length, no place, or the clock is strictly past its end. */
  lemma FinishedIff(a: Action, now: int)
    ensures Finished(a, now) <==> a.duration == 0 || a.event.address == [] || now > a.start + 60 * a.duration
  {
  }

  /** A new action runs from its start, or from the clock's instant when none is given, for its
      duration in minutes: at any later instant it is over exactly when it has no length, no
      place, or that window has passed. */
  lemma NewActionWindow(event: Event, objEvent: Option<Event>, start: Option<int>, duration: int, now: int, at: int)
    ensures var a := NewAction(event, objEvent, start, duration, now);
            var from := if start.Some? then start.value else now;
            Finished(a, at) <==> duration == 0 || event.address == [] || at > from + 60 * duration
  {
  }

  /** At its end instant an action with a place and a length is still running; one second later it is over. */
  lemma NotFinishedAtEnd(a: Action)
    requires a.duration != 0 && a.event.address != []
    ensures !Finished(a, End(a))
    ensures Finished(a, End(a) + 1)
  {
  }

  /** Once finished, an action stays finished as the clock advances. */
  lemma FinishedStays(a: Action, now: int, later: int)
    requires Finished(a, now) && now <= later
    ensures Finished(a, later)
  {
  }

  /** The stored form: the event as a dictionary, the object event or null, the start, the duration. */
  datatype ActionDict = ActionDict(event: Dict, objEvent: Option<Dict>, start: int, duration: int)

  function ToDict(a: Action): (d: ActionDict)
    ensures d.objEvent.None? <==> a.objEvent.None?
    ensures d.start == a.start && d.duration == a.duration
  {
    ActionDict(Events.ToDict(a.event),
               match a.objEvent case Some(o) => Some(Events.ToDict(o)) case None => None,
               a.start, a.duration)
  }

  /** `from_dict`: the event must decode; an absent or empty object dictionary stays absent. */
  function FromDict(d: ActionDict): (r: Option<Action>)
    ensures r.Some? ==> r.value.start == d.start && r.value.duration == d.duration
    ensures r.Some? ==> Events.FromDict(d.event) == Some(r.value.event)
    ensures r.Some? && (d.objEvent.None? || d.objEvent == Some(map[])) ==> r.value.objEvent.None?
    ensures Events.FromDict(d.event).None? ==> r.None?
  {
    match Events.FromDict(d.event)
    case None => None
    case Some(e) =>
      match d.objEvent
      case None => Some(Action(e, None, d.start, d.duration))
      case Some(o) =>
        if o == map[] then Some(Action(e, None, d.start, d.duration))
        else
          match Events.FromDict(o)
          case None => None
          case Some(oe) => Some(Action(e, Some(oe), d.start, d.duration))
  }

  /** Storing and loading gives back the same action, object event (or its absence) included. */
  lemma DictRoundTrip(a: Action)
    requires WellFormed(a.event)
    requires a.objEvent.Some? ==> WellFormed(a.objEvent.value)
    ensures FromDict(ToDict(a)) == Some(a)
  {
    Events.DictRoundTrip(a.event);
    if a.objEvent.Some? {
      Events.DictRoundTrip(a.objEvent.value);
      assert "subject" in Events.ToDict(a.objEvent.value);
    }
  }
}
