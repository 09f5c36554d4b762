/**
 * What the program does with a language model's answers (model/llm_model.py): picking results
 * out of the answer's lines, the bounded retry loop with its failsafe and counters, and choosing
 * the model class. The model itself is an oracle: attempt `i` either raises or returns a text.
 * The regular-expression engine is a parameter `find`, standing for `re.findall`.
 */
module LlmOutput {
  import opened Wrappers
  import opened Strings

  /** `patterns`: a single string or a list of them. */
  datatype Patterns = Single(pattern: string) | Several(patterns: seq<string>)

  /** A lone pattern is handled as a list of one. */
  function PatternList(p: Patterns): (r: seq<string>)
    ensures p.Single? ==> r == [p.pattern]
    ensures p.Several? ==> r == p.patterns
  {
    match p
    case Single(x) => [x]
    case Several(xs) => xs
  }

  datatype Mode = MatchFirst | MatchLast | MatchAll | OtherMode

  /** The answer of `parse_llm_output`: the assertion fails (or an empty list is indexed), one
      result, all results, or `None` for an unknown mode. */
  datatype Parsed = Failed | Picked(text: string) | Listed(all: seq<string>) | Nothing

  /** What a pattern finds in a line: an empty pattern finds the whole line. */
  function Matches(pattern: string, line: string, find: (string, string) -> seq<string>): (r: seq<string>)
    ensures pattern == "" ==> r == [line]
  {
    if pattern == "" then [line] else find(pattern, line)
  }

  /** The line after removing "**" and surrounding whitespace. */
  function CleanLine(line: string): string
  {
    Strip(RemoveDoubleStars(line))
  }

  /** The one result a line contributes: the first match of the first pattern that matches. */
  function LineMatch(line: string, patterns: seq<string>, find: (string, string) -> seq<string>): (r: Option<string>)
  {
    if patterns == [] then None
    else
      var ms := Matches(patterns[0], line, find);
      if |ms| >= 1 then Some(ms[0]) else LineMatch(line, patterns[1..], find)
  }

  /** A line yields a result exactly when some pattern matches it, and then the result is the first
      match of the first such pattern. */
  lemma {:induction false} LineMatchFirst(line: string, patterns: seq<string>, find: (string, string) -> seq<string>)
    ensures LineMatch(line, patterns, find).Some? <==>
            exists i :: 0 <= i < |patterns| && |Matches(patterns[i], line, find)| >= 1
    ensures forall i :: 0 <= i < |patterns| && |Matches(patterns[i], line, find)| >= 1 &&
                        (forall j :: 0 <= j < i ==> |Matches(patterns[j], line, find)| == 0) ==>
              LineMatch(line, patterns, find) == Some(Matches(patterns[i], line, find)[0])
  {
    if patterns != [] {
      LineMatchFirst(line, patterns[1..], find);
      var tail := patterns[1..];
      assert forall i :: 1 <= i < |patterns| ==> patterns[i] == tail[i - 1];
      if |Matches(patterns[0], line, find)| == 0 {
        if exists i :: 0 <= i < |patterns| && |Matches(patterns[i], line, find)| >= 1 {
          var i :| 0 <= i < |patterns| && |Matches(patterns[i], line, find)| >= 1;
          assert |Matches(tail[i - 1], line, find)| >= 1;
        }
      }
    }
  }

  /** What one cleaned line adds to the results: its match, if any. */
  function Yield(line: string, patterns: seq<string>, find: (string, string) -> seq<string>): seq<string>
  {
    match LineMatch(line, patterns, find)
    case Some(v) => [v]
    case None => []
  }

  /** One result per line that yields one, in line order. */
  function Results(lines: seq<string>, patterns: seq<string>, find: (string, string) -> seq<string>): seq<string>
  {
    if lines == [] then [] else Yield(lines[0], patterns, find) + Results(lines[1..], patterns, find)
  }

  /** Results keep the order of the lines: the results of two runs of lines are those of the first
      followed by those of the second. */
  lemma {:induction false} ResultsAppend(a: seq<string>, b: seq<string>, patterns: seq<string>,
                                          find: (string, string) -> seq<string>)
    ensures Results(a + b, patterns, find) == Results(a, patterns, find) + Results(b, patterns, find)
  {
    if a == [] {
      assert a + b == b;
    } else {
      var ab := a + b;
      assert ab[0] == a[0] && ab[1..] == a[1..] + b;
      ResultsAppend(a[1..], b, patterns, find);
      var y := Yield(a[0], patterns, find);
      var ra, rb := Results(a[1..], patterns, find), Results(b, patterns, find);
      assert y + (ra + rb) == (y + ra) + rb;
    }
  }

  /** With an empty pattern in the list every line yields a result. */
  lemma {:induction false} EmptyPatternTakesEveryLine(lines: seq<string>, patterns: seq<string>,
                                                       find: (string, string) -> seq<string>)
    requires "" in patterns
    ensures |Results(lines, patterns, find)| == |lines|
  {
    if lines != [] {
      EmptyPatternTakesEveryLine(lines[1..], patterns, find);
      var i :| 0 <= i < |patterns| && patterns[i] == "";
      LineMatchFirst(lines[0], patterns, find);
      assert |Matches(patterns[i], lines[0], find)| >= 1;
      assert |Yield(lines[0], patterns, find)| == 1;
    }
  }

  /** The answer's lines, each without "**" and surrounding whitespace. */
  function CleanLines(response: string): (r: seq<string>)
  {
    var lines := Split(response, '\n');
    seq(|lines|, i requires 0 <= i < |lines| => CleanLine(lines[i]))
  }

  /** The results of a whole answer, line by line. */
  function AnswerResults(response: string, patterns: Patterns, find: (string, string) -> seq<string>): seq<string>
  {
    Results(CleanLines(response), PatternList(patterns), find)
  }

  /** What the mode makes of the results. */
  function Pick(rets: seq<string>, mode: Mode, ignoreEmpty: bool): (r: Parsed)
    ensures r.Failed? <==> rets == [] && (!ignoreEmpty || mode.MatchFirst? || mode.MatchLast?)
  {
    if !ignoreEmpty && rets == [] then Failed
    else match mode
      case MatchFirst => if rets == [] then Failed else Picked(rets[0])
      case MatchLast => if rets == [] then Failed else Picked(rets[|rets| - 1])
      case MatchAll => Listed(rets)
      case OtherMode => Nothing
  }

  /** `parse_llm_output(response, patterns, mode, ignore_empty)`: parsing fails exactly when no
      line yields a result and either empty answers are not allowed or one result is asked for. */
  function ParseOutput(response: string, patterns: Patterns, mode: Mode, ignoreEmpty: bool,
                       find: (string, string) -> seq<string>): (r: Parsed)
    ensures r.Failed? <==> AnswerResults(response, patterns, find) == [] &&
                           (!ignoreEmpty || mode.MatchFirst? || mode.MatchLast?)
  {
    Pick(AnswerResults(response, patterns, find), mode, ignoreEmpty)
  }

  /** Once there are results, the modes pick the first, the last or all of them, and an unknown
      mode gives nothing. */
  lemma ParseModes(response: string, patterns: Patterns, ignoreEmpty: bool, find: (string, string) -> seq<string>)
    requires AnswerResults(response, patterns, find) != []
    ensures var rets := AnswerResults(response, patterns, find);
            ParseOutput(response, patterns, MatchFirst, ignoreEmpty, find) == Picked(rets[0]) &&
            ParseOutput(response, patterns, MatchLast, ignoreEmpty, find) == Picked(rets[|rets| - 1]) &&
            ParseOutput(response, patterns, MatchAll, ignoreEmpty, find) == Listed(rets) &&
            ParseOutput(response, patterns, OtherMode, ignoreEmpty, find) == Nothing
  {
    var rets := AnswerResults(response, patterns, find);
    assert ParseOutput(response, patterns, MatchFirst, ignoreEmpty, find) == Pick(rets, MatchFirst, ignoreEmpty);
    assert ParseOutput(response, patterns, MatchLast, ignoreEmpty, find) == Pick(rets, MatchLast, ignoreEmpty);
    assert ParseOutput(response, patterns, MatchAll, ignoreEmpty, find) == Pick(rets, MatchAll, ignoreEmpty);
    assert ParseOutput(response, patterns, OtherMode, ignoreEmpty, find) == Pick(rets, OtherMode, ignoreEmpty);
  }

  /** What attempt `i` of the model does: raise, or return a text. */
  datatype Attempt = Raised | Replied(meta: string)

  /** What the callback makes of a reply: it raises, rejects it (`None`), or accepts a value. */
  datatype Reaction<T> = CallbackRaised | Rejected | Accepted(value: T)

  /** The value an attempt settles on; an exception counts as `None`. */
  function Outcome<T>(a: Attempt, callback: string -> Reaction<T>): Option<T>
  {
    match a
    case Raised => None
    case Replied(m) =>
      match callback(m)
      case Accepted(v) => Some(v)
      case _ => None
  }

  /** The first of the attempts `from`, …, `retry - 1` that settles on a value. */
  function FirstAccepted<T>(oracle: nat -> Attempt, callback: string -> Reaction<T>, from: nat, retry: int): (r: Option<nat>)
    ensures r.Some? ==> from <= r.value < retry && Outcome(oracle(r.value), callback).Some? &&
                        forall j :: from <= j < r.value ==> Outcome(oracle(j), callback).None?
    ensures r.None? ==> forall j :: from <= j < retry ==> Outcome(oracle(j), callback).None?
    decreases retry - from
  {
    if from >= retry then None
    else if Outcome(oracle(from), callback).Some? then Some(from)
    else FirstAccepted(oracle, callback, from + 1, retry)
  }

  /** How many of the first `n` attempts reached the model and got a reply. */
  function Replies(oracle: nat -> Attempt, n: nat): nat
  {
    if n == 0 then 0 else Replies(oracle, n - 1) + (if oracle(n - 1).Replied? then 1 else 0)
  }

  /** `[requests, successes, failures]` of a caller. */
  datatype Counts = Counts(requests: nat, success: nat, failure: nat)

  function Add(c: Counts, d: Counts): Counts
  {
    Counts(c.requests + d.requests, c.success + d.success, c.failure + d.failure)
  }

  /** The counters by caller; their order is only seen by `get_summary`, which is not modelled. */
  type Summary = map<string, Counts>

  /** A caller's counts; an absent caller has none yet. */
  function Get(s: Summary, k: string): Counts
  {
    if k in s then s[k] else Counts(0, 0, 0)
  }

  /** `setdefault(caller, [0, 0, 0])`. */
  function SetDefault(s: Summary, k: string): Summary
  {
    if k in s then s else s[k := Counts(0, 0, 0)]
  }

  /** Adds `d` under "total" and then under the caller, as each `+= 1` of the source does. */
  function Book(s: Summary, caller: string, d: Counts): Summary
  {
    var t := s["total" := Add(Get(s, "total"), d)];
    t[caller := Add(Get(t, caller), d)]
  }

  /** How often a key is booked: once as "total", once as the caller, so a caller named "total"
      twice. */
  function Weight(k: string, caller: string): nat
  {
    (if k == "total" then 1 else 0) + (if k == caller then 1 else 0)
  }

  function Scaled(d: Counts, w: nat): Counts
  {
    if w == 0 then Counts(0, 0, 0) else if w == 1 then d else Add(d, d)
  }

  /** The counters after a call with `replies` replies that did (`ok`) or did not settle on a value:
      the caller is entered, each reply is booked as a request, then one success or one failure. */
  function Account(summary: Summary, caller: string, replies: nat, ok: bool): Summary
  {
    var charged := Book(SetDefault(summary, caller), caller, Counts(replies, 0, 0));
    Book(charged, caller, if ok then Counts(0, 1, 0) else Counts(0, 0, 1))
  }

  /** Per call exactly one success or one failure is booked, and one request per reply, under
      "total" and under the caller alike; nobody else's counts move, and both keys are present
      afterwards. */
  lemma AccountBooked(summary: Summary, caller: string, replies: nat, ok: bool, k: string)
    ensures var d := Counts(replies, if ok then 1 else 0, if ok then 0 else 1);
            Get(Account(summary, caller, replies, ok), k) == Add(Get(summary, k), Scaled(d, Weight(k, caller)))
    ensures caller in Account(summary, caller, replies, ok) && "total" in Account(summary, caller, replies, ok)
  {
    var start := SetDefault(summary, caller);
    var charge := Counts(replies, 0, 0);
    var outcome := if ok then Counts(0, 1, 0) else Counts(0, 0, 1);
    assert Get(start, k) == Get(summary, k);
    BookGet(start, caller, charge, k);
    BookGet(Book(start, caller, charge), caller, outcome, k);
    var d := Counts(replies, if ok then 1 else 0, if ok then 0 else 1);
    assert d == Add(charge, outcome);
    var w := Weight(k, caller);
    ScaledAdd(charge, outcome, w);
  }

  lemma ScaledAdd(c: Counts, o: Counts, w: nat)
    ensures Add(Scaled(c, w), Scaled(o, w)) == Scaled(Add(c, o), w)
  {
    if w >= 2 {
      var r := c.requests + o.requests;
      var s := c.success + o.success;
      var f := c.failure + o.failure;
      assert Scaled(Add(c, o), w) == Counts(r + r, s + s, f + f);
    }
  }

  /** One booking adds the counts once per unit of the key's weight. */
  lemma BookGet(s: Summary, caller: string, d: Counts, k: string)
    ensures Get(Book(s, caller, d), k) == Add(Get(s, k), Scaled(d, Weight(k, caller)))
  {
    var t := s["total" := Add(Get(s, "total"), d)];
    if k == caller {
      assert Get(Book(s, caller, d), k) == Add(Get(t, caller), d);
    } else {
      assert Get(Book(s, caller, d), k) == Get(t, k);
    }
  }

  /** `completion(prompt, retry, callback, failsafe, caller)`: at most `retry` attempts, stopping at
      the first whose callback accepts a value; the value is returned unless it is falsy, in which
      case (as when nothing was accepted) the failsafe is. Returns the answer, the counters and the
      number of attempts. */
  method Completion<T>(retry: int, oracle: nat -> Attempt, callback: string -> Reaction<T>, failsafe: T,
                       falsy: T -> bool, summary: Summary, caller: string)
    returns (r: T, after: Summary, tries: nat)
    ensures tries <= (if retry < 0 then 0 else retry)
    ensures var hit := FirstAccepted(oracle, callback, 0, retry);
            (hit.Some? ==> tries == hit.value + 1) &&
            (hit.None? ==> tries == (if retry < 0 then 0 else retry)) &&
            r == (if hit.Some? && !falsy(Outcome(oracle(hit.value), callback).value)
                  then Outcome(oracle(hit.value), callback).value else failsafe)
    ensures after == Account(summary, caller, Replies(oracle, tries), FirstAccepted(oracle, callback, 0, retry).Some?)
  {
    var response, replies;
    response, tries, replies := Attempts(retry, oracle, callback);
    var charged := Book(SetDefault(summary, caller), caller, Counts(replies, 0, 0));
    if response.None? {
      after := Book(charged, caller, Counts(0, 0, 1));
      r := failsafe;
    } else {
      after := Book(charged, caller, Counts(0, 1, 0));
      r := if falsy(response.value) then failsafe else response.value;
    }
  }

  /** The retry loop: the value settled on, the attempts made and how many of them got a reply
      (each reply is booked as a request). */
  method Attempts<T>(retry: int, oracle: nat -> Attempt, callback: string -> Reaction<T>)
    returns (response: Option<T>, tries: nat, replies: nat)
    ensures tries <= (if retry < 0 then 0 else retry)
    ensures var hit := FirstAccepted(oracle, callback, 0, retry);
            (hit.Some? ==> tries == hit.value + 1 && response == Outcome(oracle(hit.value), callback)) &&
            (hit.None? ==> tries == (if retry < 0 then 0 else retry) && response.None?)
    ensures replies == Replies(oracle, tries)
  {
    response := None;
    tries := 0;
    replies := 0;
    while tries < retry && response.None?
      invariant tries <= (if retry < 0 then 0 else retry)
      invariant response.None? ==> FirstAccepted(oracle, callback, 0, retry) == FirstAccepted(oracle, callback, tries, retry)
      invariant response.Some? ==> tries >= 1 && FirstAccepted(oracle, callback, 0, retry) == Some(tries - 1) &&
                                   response == Outcome(oracle(tries - 1), callback)
      invariant replies == Replies(oracle, tries)
      decreases retry - tries
    {
      if oracle(tries).Replied? {
        replies := replies + 1;
      }
      response := Outcome(oracle(tries), callback);
      tries := tries + 1;
    }
  }

  /** `create_llm_model`: the first registered class that both supports the model and can be
      created with the keys. */
  function CreateModel<C>(registry: seq<C>, supports: C -> bool, creatable: C -> bool): (r: Option<nat>)
    ensures r.Some? ==> r.value < |registry| && supports(registry[r.value]) && creatable(registry[r.value])
    ensures r.Some? ==> forall j :: 0 <= j < r.value ==> !(supports(registry[j]) && creatable(registry[j]))
    ensures r.None? ==> forall j :: 0 <= j < |registry| ==> !(supports(registry[j]) && creatable(registry[j]))
  {
    if registry == [] then None
    else if supports(registry[0]) && creatable(registry[0]) then Some(0)
    else match CreateModel(registry[1..], supports, creatable)
      case None => None
      case Some(i) => Some(i + 1)
  }
}
