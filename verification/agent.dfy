/**
 * The small decisions of an agent's loop (agent.py): how a line of text becomes an event, how
 * much an event weighs when it is memorised, whether the agent is awake, and when it reflects.
 *
 * The language model's ratings are a parameter `rate(kind, event)`, where `kind` names the
 * prompt ("poignancy_chat" or "poignancy_event") the source would ask.
 */
module AgentLoop {
  import opened Wrappers
  import opened Strings
  import opened Events
  import opened Actions

  /** The characters `make_event` deletes from the text. */
  const Brackets: set<char> := {'(', ')', '<', '>'}

  /** `if s.startswith(p): s = s[len(p):]`. */
  function DropLead(p: string, s: string): (r: string)
    ensures IsPrefix(p, s) ==> p + r == s
    ensures !IsPrefix(p, s) ==> r == s
    ensures |r| <= |s| && r == s[|s| - |r|..]
  {
    if IsPrefix(p, s) then
      assert s == s[..|p|] + s[|p|..];
      s[|p|..]
    else s
  }

  /** `make_event(subject, describe, address)`: the brackets are deleted from the text, then one
      leading "subject此时" and then one leading subject; what is left is the object. */
  function MakeEvent(subject: string, describe: string, address: seq<string>): (e: Event)
    ensures e.subject == subject && e.pred == DefaultPredicate && e.describe == describe
    ensures e.address == address && e.emoji == ""
    ensures e.obj != "" && forall i :: 0 <= i < |e.obj| ==> e.obj[i] !in Brackets
  {
    var text := DropChars(describe, Brackets);
    var rest := DropLead(subject, DropLead(subject + DefaultPredicate, text));
    assert forall i :: 0 <= i < |rest| ==> rest[i] == text[|text| - |rest| + i];
    NewEvent(subject, DefaultPredicate, rest, address, describe, "")
  }

  /** What the object is, case by case: the text after "subject此时" (and after one more subject
      should the text repeat it), the text after the subject, or the whole text; an empty object
      is "空闲". */
  lemma MakeEventObject(subject: string, describe: string, address: seq<string>, x: string)
    ensures var text := DropChars(describe, Brackets);
            var obj := MakeEvent(subject, describe, address).obj;
            (text == subject + DefaultPredicate + x && !IsPrefix(subject, x) ==> obj == Or(x, DefaultObject)) &&
            (text == subject + DefaultPredicate + subject + x ==> obj == Or(x, DefaultObject)) &&
            (text == subject + x && !IsPrefix(DefaultPredicate, x) ==> obj == Or(x, DefaultObject)) &&
            (text == x && !IsPrefix(subject, x) ==> obj == Or(x, DefaultObject))
  {
    var text := DropChars(describe, Brackets);
    var long := subject + DefaultPredicate;
    if text == long + x {
      DropLeadConcat(long, x);
    }
    if text == long + subject + x {
      assert text == long + (subject + x);
      DropLeadConcat(long, subject + x);
      DropLeadConcat(subject, x);
    }
    if text == subject + x && !IsPrefix(DefaultPredicate, x) {
      PrefixAfter(subject, DefaultPredicate, x);
      DropLeadConcat(subject, x);
    }
    if text == x && !IsPrefix(subject, x) {
      PrefixOfPrefix(subject, DefaultPredicate, x);
    }
  }

  /** A text made of `p` and then `x` loses exactly `p`. */
  lemma DropLeadConcat(p: string, x: string)
    ensures IsPrefix(p, p + x) && DropLead(p, p + x) == x
  {
    assert (p + x)[..|p|] == p;
  }

  /** Whatever starts with `p + q` starts with `p`. */
  lemma PrefixOfPrefix(p: string, q: string, s: string)
    ensures IsPrefix(p + q, s) ==> IsPrefix(p, s)
  {
    if IsPrefix(p + q, s) {
      assert s[..|p|] == (p + q)[..|p|];
    }
  }

  /** `p + q` starts `p + x` exactly when `q` starts `x`. */
  lemma PrefixAfter(p: string, q: string, x: string)
    ensures IsPrefix(p + q, p + x) <==> IsPrefix(q, x)
  {
    if IsPrefix(p + q, p + x) {
      assert x[..|q|] == (p + x)[|p|..|p| + |q|];
      assert q == (p + q)[|p|..];
    }
    if IsPrefix(q, x) {
      assert (p + x)[..|p + q|] == p + x[..|q|];
    }
  }

  /** A text that says nothing but "subject此时" makes an idle event, when the subject's name has no
      brackets in it. */
  lemma MakeEventIdle(subject: string, address: seq<string>)
    requires forall i :: 0 <= i < |subject| ==> subject[i] !in Brackets
    ensures Fit(MakeEvent(subject, subject + DefaultPredicate, address), subject, DefaultPredicate, DefaultObject)
  {
    var s := subject + DefaultPredicate;
    assert forall i :: 0 <= i < |s| ==> s[i] !in Brackets by {
      forall i | 0 <= i < |s| ensures s[i] !in Brackets {
        if i < |subject| {
          assert s[i] == subject[i];
        }
      }
    }
    DropCharsAbsent(s, Brackets);
    DropLeadConcat(s, "");
    assert s + "" == s;
  }

  /** The two events `_add_concept` weighs 1 without asking: idle in English or in Chinese. */
  predicate Idle(e: Event)
  {
    Fit(e, "", "is", "idle") || Fit(e, "", DefaultPredicate, DefaultObject)
  }

  /** `_add_concept`'s poignancy: 1 for an idle event, otherwise the model's rating of a chat or
      of any other event. */
  function Poignancy(kind: string, e: Event, rate: (string, Event) -> int): (r: int)
    ensures Idle(e) ==> r == 1
    ensures !Idle(e) && kind == "chat" ==> r == rate("poignancy_chat", e)
    ensures !Idle(e) && kind != "chat" ==> r == rate("poignancy_event", e)
  {
    if Fit(e, "", "is", "idle") then 1
    else if Fit(e, "", DefaultPredicate, DefaultObject) then 1
    else if kind == "chat" then rate("poignancy_chat", e)
    else rate("poignancy_event", e)
  }

  /** A thought made by `make_event` weighs 1 exactly when its object came out idle; any other
      thought is rated as an event, whatever the rater says. */
  lemma ThoughtPoignancy(subject: string, describe: string, address: seq<string>, rate: (string, Event) -> int)
    ensures var e := MakeEvent(subject, describe, address);
            Poignancy("thought", e, rate) == if e.obj == DefaultObject then 1 else rate("poignancy_event", e)
  {
    var e := MakeEvent(subject, describe, address);
    assert e.pred == DefaultPredicate;
    assert DefaultPredicate != "is" by { assert DefaultPredicate[0] != "is"[0]; }
    assert !Fit(e, "", "is", "idle");
    assert Fit(e, "", DefaultPredicate, DefaultObject) <==> e.obj == DefaultObject;
  }

  /** `is_awake()`: with no action the agent is awake; it sleeps while its event is
      "<name> is sleeping" or "<name> 正在 睡觉". */
  function IsAwake(action: Option<Action>, name: string): (r: bool)
    ensures action.None? ==> r
  {
    match action
    case None => true
    case Some(a) =>
      if Fit(a.event, name, "is", "sleeping") then false
      else if Fit(a.event, name, "正在", "睡觉") then false
      else true
  }

  /** The action `think` starts when a sleeping plan comes up puts the agent to sleep. */
  lemma GoingToSleep(name: string, address: seq<string>, objEvent: Option<Event>, start: int, duration: int)
    ensures !IsAwake(Some(Action(Event(name, "正在", "睡觉", "", address, "😴"), objEvent, start, duration)), name)
  {
  }

  /** An agent is asleep only under an event whose predicate is "is" or "正在": an action whose
      event `make_event` built never puts it to sleep. */
  lemma AsleepOnlyBySleepEvents(action: Option<Action>, name: string)
    ensures !IsAwake(action, name) <==>
              action.Some? && (name == "" || action.value.event.subject == name) &&
              ((action.value.event.pred == "is" && action.value.event.obj == "sleeping") ||
               (action.value.event.pred == "正在" && action.value.event.obj == "睡觉"))
    ensures action.Some? && action.value.event.pred == DefaultPredicate ==> IsAwake(action, name)
  {
  }

  /** What reflection reads and resets: the accumulated poignancy and the chats since. */
  datatype Mind = Mind(poignancy: int, chats: seq<(string, string)>)

  /** The gate of `reflect()`: below the threshold, or with no memories to reflect on, nothing
      happens; otherwise (after the thoughts, which are not modelled) poignancy and chats reset.
      The flag says whether the agent reflected. */
  function Reflect(m: Mind, poignancyMax: int, nodes: nat): (r: (Mind, bool))
    ensures r.1 <==> m.poignancy >= poignancyMax && nodes > 0
  {
    if m.poignancy < poignancyMax then (m, false)
    else if nodes == 0 then (m, false)
    else (Mind(0, []), true)
  }

  /** Reflecting empties the mind, and a mind left alone is unchanged. */
  lemma ReflectResets(m: Mind, poignancyMax: int, nodes: nat)
    ensures var (r, done) := Reflect(m, poignancyMax, nodes);
            (done ==> r.poignancy == 0 && r.chats == []) && (!done ==> r == m)
  {
  }

  /** With a positive threshold a second reflection right after the first does nothing. */
  lemma ReflectSettles(m: Mind, poignancyMax: int, nodes: nat)
    requires poignancyMax > 0
    ensures var r := Reflect(m, poignancyMax, nodes).0;
            Reflect(r, poignancyMax, nodes) == (r, false)
  {
  }
}
