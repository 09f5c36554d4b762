/**
 * Events: "who is doing what, where" (memory/event.py).
 *
 * Python passes omitted arguments as `None` and replaces every falsy value by a default
 * (`predicate or "此时"`); here an omitted or empty string is `""` and an omitted address is `[]`.
 */
module Events {
  import opened Wrappers
  import opened Strings

  const DefaultPredicate: string := "此时"
  const DefaultObject: string := "空闲"

  datatype Event = Event(
    subject: string,
    pred: string,
    obj: string,
    describe: string,
    address: seq<string>,
    emoji: string)

  /** Python's `s or d` on strings. */
  function Or(s: string, d: string): string
  {
    if s == "" then d else s
  }

  /** Every event the program builds has a non-empty predicate and object. */
  predicate WellFormed(e: Event)
  {
    e.pred != "" && e.obj != ""
  }

  /** The constructor, with the defaults of the omitted fields. */
  function NewEvent(subject: string, pred: string, obj: string, address: seq<string>,
                    describe: string, emoji: string): (e: Event)
    ensures WellFormed(e)
    ensures e.subject == subject && e.address == address && e.describe == describe && e.emoji == emoji
  {
    Event(subject, Or(pred, DefaultPredicate), Or(obj, DefaultObject), describe, address, emoji)
  }

  /** Omitted fields take the fixed defaults. */
  lemma NewEventDefaults(subject: string)
    ensures NewEvent(subject, "", "", [], "", "") == Event(subject, "此时", "空闲", "", [], "")
  {
  }

  /** Fields that are given are kept as they are. */
  lemma NewEventKeepsGiven(subject: string, pred: string, obj: string, address: seq<string>,
                           describe: string, emoji: string)
    requires pred != "" && obj != ""
    ensures NewEvent(subject, pred, obj, address, describe, emoji)
            == Event(subject, pred, obj, describe, address, emoji)
  {
  }

  /** What `__hash__` hashes and `__eq__` compares: the address enters only ":"-joined. */
  function Key(e: Event): (string, string, string, string, string)
  {
    (e.subject, e.pred, e.obj, e.describe, Join(e.address, ":"))
  }

  /** `a == b` on events (hash collisions are not modelled). */
  predicate Same(a: Event, b: Event)
  {
    Key(a) == Key(b)
  }

  /** Equality is exactly equality of the four text fields and of the joined address. */
  lemma SameIff(a: Event, b: Event)
    ensures Same(a, b) <==>
      a.subject == b.subject && a.pred == b.pred && a.obj == b.obj
      && a.describe == b.describe && Join(a.address, ":") == Join(b.address, ":")
  {
  }

  /** The emoji never takes part in equality. */
  lemma SameIgnoresEmoji(e: Event, emoji: string)
    ensures Same(e, e.(emoji := emoji))
  {
  }

  /** Event equality is an equivalence relation. */
  lemma SameIsEquivalence(a: Event, b: Event, c: Event)
    ensures Same(a, a)
    ensures Same(a, b) ==> Same(b, a)
    ensures Same(a, b) && Same(b, c) ==> Same(a, c)
  {
  }

  /** Two different address lists with the same ":"-join make equal events. */
  lemma JoinedAddressesCollide()
    ensures var a := Event("s", "p", "o", "", ["a:b"], "");
            var b := Event("s", "p", "o", "", ["a", "b"], "");
            a.address != b.address && Same(a, b)
  {
    var a := Event("s", "p", "o", "", ["a:b"], "");
    var b := Event("s", "p", "o", "", ["a", "b"], "");
    assert a.address[0] != b.address[0];
    assert Join(["a:b"], ":") == "a:b";
    assert ["a", "b"][1..] == ["b"];
    assert Join(["a", "b"], ":") == "a" + ":" + "b";
    assert "a" + ":" + "b" == "a:b";
  }

  /** `update`: predicate and object fall back to the defaults, an omitted describe keeps the old one. */
  function Update(e: Event, pred: string, obj: string, describe: string): (r: Event)
    ensures WellFormed(r)
    ensures r.subject == e.subject && r.address == e.address && r.emoji == e.emoji
    ensures r.pred == (if pred == "" then DefaultPredicate else pred)
    ensures r.obj == (if obj == "" then DefaultObject else obj)
    ensures r.describe == (if describe == "" then e.describe else describe)
  {
    e.(pred := Or(pred, DefaultPredicate), obj := Or(obj, DefaultObject),
       describe := Or(describe, e.describe))
  }

  /** Repeating an update changes nothing more. */
  lemma UpdateIdempotent(e: Event, pred: string, obj: string, describe: string)
    ensures Update(Update(e, pred, obj, describe), pred, obj, describe)
            == Update(e, pred, obj, describe)
  {
  }

  /** `fit(subject, predicate, object)`: every non-empty argument must equal its field. */
  predicate Fit(e: Event, subject: string, pred: string, obj: string)
  {
    && (subject == "" || e.subject == subject)
    && (pred == "" || e.pred == pred)
    && (obj == "" || e.obj == obj)
  }

  /** `fit()` with no arguments always holds, and an event fits its own fields. */
  lemma FitTrivial(e: Event)
    ensures Fit(e, "", "", "")
    ensures Fit(e, e.subject, e.pred, e.obj)
  {
  }

  /** Leaving an argument out only makes the match easier. */
  lemma FitMonotone(e: Event, subject: string, pred: string, obj: string)
    requires Fit(e, subject, pred, obj)
    ensures Fit(e, "", pred, obj) && Fit(e, subject, "", obj) && Fit(e, subject, pred, "")
  {
  }

  /** The text `get_describe` starts from: the describe, or "predicate object" when it is empty. */
  function BaseDescribe(e: Event): string
  {
    Or(e.describe, e.pred + " " + e.obj)
  }

  /** Prepends `subject + " "` unless the subject already occurs in the text. */
  function AddSubject(subject: string, text: string): (r: string)
    ensures Contains(r, subject)
  {
    if Contains(text, subject) then text
    else
      PrefixIsContained(subject, subject + " " + text);
      subject + " " + text
  }

  /** Removes one leading `subject + " "`, if present. */
  function DropSubject(subject: string, text: string): (r: string)
    ensures r == text || text == subject + " " + r
  {
    if IsPrefix(subject + " ", text) then
      assert text == text[..|subject| + 1] + text[|subject| + 1..];
      text[|subject| + 1..]
    else text
  }

  /** `get_describe(with_subject)`. */
  function GetDescribe(e: Event, withSubject: bool): string
  {
    if withSubject then AddSubject(e.subject, BaseDescribe(e)) else DropSubject(e.subject, BaseDescribe(e))
  }

  /** With the subject, the subject always occurs in the result; the prefix is added only when it was absent. */
  lemma DescribeWithSubject(e: Event)
    ensures Contains(GetDescribe(e, true), e.subject)
    ensures Contains(BaseDescribe(e), e.subject) ==> GetDescribe(e, true) == BaseDescribe(e)
    ensures !Contains(BaseDescribe(e), e.subject) ==> GetDescribe(e, true) == e.subject + " " + BaseDescribe(e)
  {
  }

  /** Without the subject, exactly one leading `subject + " "` is removed, and nothing else changes. */
  lemma DescribeWithoutSubject(e: Event)
    ensures IsPrefix(e.subject + " ", BaseDescribe(e)) ==>
              e.subject + " " + GetDescribe(e, false) == BaseDescribe(e)
    ensures !IsPrefix(e.subject + " ", BaseDescribe(e)) ==> GetDescribe(e, false) == BaseDescribe(e)
  {
  }

  /** An empty describe falls back to "predicate object". */
  lemma DescribeFallback(e: Event)
    requires e.describe == ""
    ensures BaseDescribe(e) == e.pred + " " + e.obj
  {
  }

  /** Adding the subject and dropping it again gives back any text that did not mention the subject. */
  lemma DropAfterAdd(subject: string, text: string)
    requires !Contains(text, subject)
    ensures DropSubject(subject, AddSubject(subject, text)) == text
  {
    var added := subject + " " + text;
    assert added[..|subject| + 1] == subject + " ";
    assert added[|subject| + 1..] == text;
  }

  /** Dropping a leading subject and adding it again restores the text when the rest does not mention it. */
  lemma AddAfterDrop(subject: string, text: string)
    requires IsPrefix(subject + " ", text)
    requires !Contains(text[|subject| + 1..], subject)
    ensures AddSubject(subject, DropSubject(subject, text)) == text
  {
    assert text == text[..|subject| + 1] + text[|subject| + 1..];
  }

  /** Storing the with-subject text as the describe and asking for it without the subject gives the
      original describe back, for a describe that does not mention the subject. */
  lemma DescribeRoundTrip(e: Event)
    requires e.describe != "" && !Contains(e.describe, e.subject)
    ensures GetDescribe(e.(describe := GetDescribe(e, true)), false) == e.describe
  {
    DropAfterAdd(e.subject, e.describe);
  }

  /** A value of the dictionaries `to_dict` produces and `from_dict` reads. */
  datatype Value = Null | Str(text: string) | Strs(items: seq<string>)

  type Dict = map<string, Value>

  const EventKeys: set<string> := {"subject", "predicate", "object", "describe", "address", "emoji"}

  /** `to_dict`. */
  function ToDict(e: Event): (d: Dict)
    ensures d.Keys == EventKeys
  {
    map["subject" := Str(e.subject), "predicate" := Str(e.pred), "object" := Str(e.obj),
        "describe" := Str(e.describe), "address" := Strs(e.address), "emoji" := Str(e.emoji)]
  }

  /** An optional text argument: missing, `None` and "" are all falsy; anything but a string is refused. */
  function TextArg(d: Dict, key: string): Option<string>
  {
    if key !in d then Some("")
    else match d[key]
      case Null => Some("")
      case Str(s) => Some(s)
      case Strs(_) => None
  }

  /** An optional list argument: missing or `None` is the empty list. */
  function ListArg(d: Dict, key: string): Option<seq<string>>
  {
    if key !in d then Some([])
    else match d[key]
      case Null => Some([])
      case Str(_) => None
      case Strs(xs) => Some(xs)
  }

  /** `from_dict`, i.e. `Event(**config)`: an unknown key or a missing subject raises (`None`). */
  function FromDict(d: Dict): (r: Option<Event>)
    ensures r.Some? ==> WellFormed(r.value)
    ensures r.Some? ==> d.Keys <= EventKeys && "subject" in d && d["subject"] == Str(r.value.subject)
  {
    if !(d.Keys <= EventKeys) || "subject" !in d || !d["subject"].Str? then None
    else
      match (TextArg(d, "predicate"), TextArg(d, "object"), ListArg(d, "address"),
             TextArg(d, "describe"), TextArg(d, "emoji"))
      case (Some(p), Some(o), Some(a), Some(ds), Some(em)) =>
        Some(NewEvent(d["subject"].text, p, o, a, ds, em))
      case _ => None
  }

  /** `from_dict(to_dict(e))` is `e`, emoji included, for every event the program builds. */
  lemma DictRoundTrip(e: Event)
    requires WellFormed(e)
    ensures FromDict(ToDict(e)) == Some(e)
  {
  }

  /** `from_list`: three items give subject, predicate and object; a fourth gives the address, and
      a `None` there is the empty address. Fewer than three items raise. */
  function FromList(items: seq<Value>): (r: Option<Event>)
    ensures r.Some? ==> WellFormed(r.value) && |items| >= 3 && items[0] == Str(r.value.subject)
    ensures r.Some? && |items| == 3 ==> r.value.address == []
    ensures r.Some? && |items| >= 4 ==>
              items[3] == Strs(r.value.address) || (items[3] == Null && r.value.address == [])
    ensures |items| >= 4 && items[0].Str? && items[1].Str? && items[2].Str? && items[3].Null? ==>
              r == Some(NewEvent(items[0].text, items[1].text, items[2].text, [], "", ""))
  {
    if |items| < 3 || !items[0].Str? then None
    else
      var p := if items[1].Str? then Some(items[1].text) else if items[1].Null? then Some("") else None;
      var o := if items[2].Str? then Some(items[2].text) else if items[2].Null? then Some("") else None;
      if p.None? || o.None? then None
      else if |items| == 3 then Some(NewEvent(items[0].text, p.value, o.value, [], "", ""))
      else if items[3].Strs? then Some(NewEvent(items[0].text, p.value, o.value, items[3].items, "", ""))
      else if items[3].Null? then Some(NewEvent(items[0].text, p.value, o.value, [], "", ""))
      else None
  }

  /** A triple of strings builds the event with exactly those fields. */
  lemma FromListTriple(s: string, p: string, o: string)
    requires p != "" && o != ""
    ensures FromList([Str(s), Str(p), Str(o)]) == Some(Event(s, p, o, "", [], ""))
    ensures FromList([Str(s), Str(p), Str(o), Strs(["w", "x"])]) == Some(Event(s, p, o, "", ["w", "x"], ""))
    ensures FromList([Str(s), Str(p), Str(o), Null]) == Some(Event(s, p, o, "", [], ""))
  {
  }
}
