/**
 * One cell of the world map (the `Tile` class of maze.py).
 *
 * A tile has an address path (world, sector, arena, game object), the names of those levels,
 * a collision flag and a set of events keyed by tags "e_0", "e_1", ... in insertion order. The
 * event dictionary is a sequence of tagged events; a tag is the number after "e_".
 */
module Tiles {
  import opened Wrappers
  import opened Strings
  import opened Events

  type Coord = (int, int)

  datatype Tagged = Tagged(tag: nat, event: Event)

  datatype Tile = Tile(coord: Coord, address: seq<string>, keys: seq<string>, collision: bool,
                       counter: nat, events: seq<Tagged>)

  /** The dictionary key of a tag. */
  function TagName(n: nat): string
  {
    "e_" + NatStr(n)
  }

  /** Different counters give different dictionary keys. */
  lemma TagNamesDistinct(a: nat, b: nat)
    requires a != b
    ensures TagName(a) != TagName(b)
  {
    if TagName(a) == TagName(b) {
      assert NatStr(a) == TagName(a)[2..];
      NatStrInjective(a, b);
    }
  }

  /** Tags increase along the dictionary and all lie below the counter: tags never repeat. */
  predicate Increasing(es: seq<Tagged>)
  {
    forall i, j :: 0 <= i < j < |es| ==> es[i].tag < es[j].tag
  }

  predicate Valid(t: Tile)
  {
    Increasing(t.events) && forall i :: 0 <= i < |t.events| ==> t.events[i].tag < t.counter
  }

  /** No two events of the tile are equal. */
  predicate NoDuplicates(t: Tile)
  {
    forall i, j :: 0 <= i < j < |t.events| ==> !Same(t.events[i].event, t.events[j].event)
  }

  /** `all(e != event for e in events)`. */
  predicate Absent(es: seq<Tagged>, e: Event)
  {
    forall i :: 0 <= i < |es| ==> !Same(es[i].event, e)
  }

  /** `add_event`: inserts under the next tag only when no equal event is present. */
  function AddEvent(t: Tile, e: Event): (r: Tile)
    ensures r.coord == t.coord && r.address == t.address && r.keys == t.keys && r.collision == t.collision
    ensures Absent(t.events, e) ==> r.counter == t.counter + 1 && r.events == t.events + [Tagged(t.counter, e)]
    ensures !Absent(t.events, e) ==> r == t
  {
    if Absent(t.events, e) then t.(events := t.events + [Tagged(t.counter, e)], counter := t.counter + 1)
    else t
  }

  /** After adding, an equal event is present; the tags stay unique and the events distinct. */
  lemma AddEventKeepsInvariants(t: Tile, e: Event)
    requires Valid(t) && NoDuplicates(t)
    ensures Valid(AddEvent(t, e)) && NoDuplicates(AddEvent(t, e))
    ensures !Absent(AddEvent(t, e).events, e)
    ensures AddEvent(t, e).counter == t.counter || AddEvent(t, e).counter == t.counter + 1
  {
    var r := AddEvent(t, e);
    if Absent(t.events, e) {
      assert Same(r.events[|t.events|].event, e);
      forall i, j | 0 <= i < j < |r.events| ensures !Same(r.events[i].event, r.events[j].event) {
        if j == |t.events| {
          assert r.events[i] == t.events[i] && r.events[j].event == e;
        }
      }
    }
  }

  /** Adding the same event twice is the same as adding it once. */
  lemma AddEventIdempotent(t: Tile, e: Event)
    ensures AddEvent(AddEvent(t, e), e) == AddEvent(t, e)
  {
    var r := AddEvent(t, e);
    if Absent(t.events, e) {
      SameIsEquivalence(e, e, e);
      assert Same(r.events[|t.events|].event, e);
    }
  }

  /** The tile constructor: the address is the world followed by the given levels, and a tile
      that reaches the game-object level starts with an idle event on that object. */
  function NewTile(coord: Coord, world: string, keys: seq<string>, address: seq<string>, collision: bool): (r: Tile)
    ensures r.address == [world] + address && r.keys == keys && r.coord == coord && r.collision == collision
    ensures Valid(r) && NoDuplicates(r)
  {
    var full := [world] + address;
    var empty := Tile(coord, full, keys, collision, 0, []);
    if |full| == 4 then AddEvent(empty, NewEvent(full[3], "", "", full, "", "")) else empty
  }

  /** An object tile holds exactly one event, "<object> 此时 空闲" at its own address; other tiles hold none. */
  lemma NewTileSeed(coord: Coord, world: string, keys: seq<string>, address: seq<string>, collision: bool)
    ensures var r := NewTile(coord, world, keys, address, collision);
            if |address| == 3 then
              r.counter == 1 && |r.events| == 1 && r.events[0].tag == 0 &&
              r.events[0].event == Event(address[2], DefaultPredicate, DefaultObject, "", [world] + address, "")
            else r.counter == 0 && r.events == []
  {
  }

  /** Which events `remove_events(subject, event)` takes: those of the subject (when one is given)
      and those equal to the event (when one is given). */
  predicate Matches(x: Tagged, subject: string, event: Option<Event>)
  {
    (subject != "" && x.event.subject == subject) || (event.Some? && Same(x.event, event.value))
  }

  /** Splits the dictionary into the events kept and the events removed, each in dictionary order. */
  function Partition(es: seq<Tagged>, subject: string, event: Option<Event>): (r: (seq<Tagged>, seq<Tagged>))
    ensures forall x :: x in r.0 <==> x in es && !Matches(x, subject, event)
    ensures forall x :: x in r.1 <==> x in es && Matches(x, subject, event)
    ensures |r.0| + |r.1| == |es|
    ensures Increasing(es) ==> Increasing(r.0) && Increasing(r.1)
    decreases |es|
  {
    if es == [] then ([], [])
    else
      var rest := Partition(es[1..], subject, event);
      assert forall x :: x in es <==> x == es[0] || x in es[1..];
      ConsIncreasing(es, rest.0);
      ConsIncreasing(es, rest.1);
      if Matches(es[0], subject, event) then (rest.0, [es[0]] + rest.1)
      else ([es[0]] + rest.0, rest.1)
  }

  /** The head of an increasing dictionary can go in front of any increasing part of its tail. */
  lemma ConsIncreasing(es: seq<Tagged>, part: seq<Tagged>)
    requires |es| > 0
    ensures Increasing(es) ==> Increasing(es[1..])
    ensures Increasing(es) && Increasing(part) && (forall x :: x in part ==> x in es[1..]) ==>
              Increasing([es[0]] + part)
  {
    if Increasing(es) && Increasing(part) && (forall x :: x in part ==> x in es[1..]) {
      forall k | 0 <= k < |part| ensures es[0].tag < part[k].tag {
        assert part[k] in es[1..];
        var m :| 0 <= m < |es[1..]| && es[1..][m] == part[k];
        assert es[m + 1] == part[k];
      }
    }
  }

  /** `remove_events`: the tile without the matching events, and the removed events. */
  function RemoveEvents(t: Tile, subject: string, event: Option<Event>): (r: (Tile, seq<Tagged>))
    ensures r.0 == t.(events := Partition(t.events, subject, event).0)
    ensures r.1 == Partition(t.events, subject, event).1
  {
    var p := Partition(t.events, subject, event);
    (t.(events := p.0), p.1)
  }

  /** Exactly the matching events go; every other event stays under its own tag; nothing is added. */
  lemma RemoveEventsExact(t: Tile, subject: string, event: Option<Event>)
    requires Valid(t) && NoDuplicates(t)
    ensures var (r, removed) := RemoveEvents(t, subject, event);
            Valid(r) && NoDuplicates(r) && r.counter == t.counter &&
            (forall x :: x in r.events <==> x in t.events && !Matches(x, subject, event)) &&
            (forall x :: x in removed <==> x in t.events && Matches(x, subject, event)) &&
            |r.events| + |removed| == |t.events|
  {
    var r := RemoveEvents(t, subject, event).0;
    forall i | 0 <= i < |r.events| ensures r.events[i].tag < t.counter {
      assert r.events[i] in t.events;
    }
    forall i, j | 0 <= i < j < |r.events| ensures !Same(r.events[i].event, r.events[j].event) {
      assert r.events[i] in t.events && r.events[j] in t.events;
      var a :| 0 <= a < |t.events| && t.events[a] == r.events[i];
      var b :| 0 <= b < |t.events| && t.events[b] == r.events[j];
      TagOrder(t.events, a, b);
    }
  }

  /** In a dictionary with increasing tags, a smaller tag sits earlier. */
  lemma TagOrder(es: seq<Tagged>, a: int, b: int)
    requires Increasing(es) && 0 <= a < |es| && 0 <= b < |es| && es[a].tag < es[b].tag
    ensures a < b
  {
  }

  /** Removing again with the same arguments removes nothing. */
  lemma RemoveEventsIdempotent(t: Tile, subject: string, event: Option<Event>)
    ensures var r := RemoveEvents(t, subject, event).0;
            RemoveEvents(r, subject, event) == (r, [])
  {
    var r := RemoveEvents(t, subject, event).0;
    PartitionAllKept(r.events, subject, event);
  }

  /** When nothing matches, the kept part is the whole dictionary. */
  lemma {:induction false} PartitionAllKept(es: seq<Tagged>, subject: string, event: Option<Event>)
    requires forall x :: x in es ==> !Matches(x, subject, event)
    ensures Partition(es, subject, event) == (es, [])
    decreases |es|
  {
    if es != [] {
      assert es[0] in es;
      assert forall x :: x in es[1..] ==> x in es;
      PartitionAllKept(es[1..], subject, event);
      assert [es[0]] + es[1..] == es;
    }
  }

  /** The event a dictionary slot holds after `update_events(event, match)`. */
  function Replaced(x: Tagged, e: Event, matchMode: string): Tagged
  {
    if matchMode == "subject" && x.event.subject == e.subject then Tagged(x.tag, e) else x
  }

  /** The tags of the slots `update_events` rewrites, in dictionary order. */
  function UpdatedTags(es: seq<Tagged>, e: Event, matchMode: string): (r: seq<nat>)
    ensures forall g :: g in r <==>
              exists i :: 0 <= i < |es| && es[i].tag == g && matchMode == "subject" && es[i].event.subject == e.subject
    decreases |es|
  {
    if es == [] then []
    else
      var rest := UpdatedTags(es[1..], e, matchMode);
      assert forall i :: 1 <= i < |es| ==> es[i] == es[1..][i - 1];
      if matchMode == "subject" && es[0].event.subject == e.subject then [es[0].tag] + rest else rest
  }

  /** `update_events`: every slot whose event has the new event's subject now holds the new event. */
  function UpdateEvents(t: Tile, e: Event, matchMode: string): (r: (Tile, seq<nat>))
    ensures r.0.coord == t.coord && r.0.address == t.address && r.0.keys == t.keys
    ensures r.0.collision == t.collision && r.0.counter == t.counter
    ensures |r.0.events| == |t.events|
    ensures forall i :: 0 <= i < |t.events| ==> r.0.events[i].tag == t.events[i].tag
    ensures forall i :: 0 <= i < |t.events| && matchMode == "subject" && t.events[i].event.subject == e.subject ==>
              r.0.events[i].event == e
    ensures forall i :: 0 <= i < |t.events| && !(matchMode == "subject" && t.events[i].event.subject == e.subject) ==>
              r.0.events[i] == t.events[i]
    ensures forall g :: g in r.1 <==>
              exists i :: 0 <= i < |t.events| && t.events[i].tag == g && matchMode == "subject" && t.events[i].event.subject == e.subject
  {
    (t.(events := seq(|t.events|, i requires 0 <= i < |t.events| => Replaced(t.events[i], e, matchMode))),
     UpdatedTags(t.events, e, matchMode))
  }

  /** Updating never inserts: the tags, the counter and the tile invariant are kept. */
  lemma UpdateEventsKeepsValid(t: Tile, e: Event, matchMode: string)
    requires Valid(t)
    ensures Valid(UpdateEvents(t, e, matchMode).0)
  {
  }

  /** Updating twice with the same event changes nothing more. */
  lemma UpdateEventsIdempotent(t: Tile, e: Event, matchMode: string)
    ensures var r := UpdateEvents(t, e, matchMode).0;
            UpdateEvents(r, e, matchMode).0 == r
  {
  }

  /** `address_keys.index(level)`. */
  function IndexOf(keys: seq<string>, k: string): (i: nat)
    requires k in keys
    ensures i < |keys| && keys[i] == k && forall j :: 0 <= j < i ==> keys[j] != k
  {
    if keys[0] == k then 0 else 1 + IndexOf(keys[1..], k)
  }

  /** `has_address(key)`: the key names one of the levels the tile's address reaches. */
  predicate HasAddress(t: Tile, key: string)
  {
    key in t.keys[..if |t.keys| < |t.address| then |t.keys| else |t.address|]
  }

  /** `get_address(level)`: the address down to that level (the deepest level when none is named).
      An unknown level fails the assertion, and no level names at all is an index error. */
  function GetAddress(t: Tile, level: string): (r: Option<seq<string>>)
    ensures r.Some? <==> (level != "" && level in t.keys) || (level == "" && |t.keys| > 0)
    ensures r.Some? ==> IsPrefixSeq(r.value, t.address)
  {
    var lvl := if level != "" then level else if |t.keys| > 0 then t.keys[|t.keys| - 1] else "";
    if (level == "" && |t.keys| == 0) || lvl !in t.keys then None
    else
      var pos := IndexOf(t.keys, lvl) + 1;
      Some(t.address[..if pos < |t.address| then pos else |t.address|])
  }

  predicate IsPrefixSeq(p: seq<string>, s: seq<string>)
  {
    |p| <= |s| && s[..|p|] == p
  }

  /** For a level the tile has, `get_address` is the address down to and including that level. */
  lemma GetAddressOfOwnLevel(t: Tile, key: string)
    requires key != "" && HasAddress(t, key)
    ensures key in t.keys
    ensures GetAddress(t, key) == Some(t.address[..IndexOf(t.keys, key) + 1])
    ensures |GetAddress(t, key).value| == IndexOf(t.keys, key) + 1
  {
    var n := if |t.keys| < |t.address| then |t.keys| else |t.address|;
    var k :| 0 <= k < n && t.keys[..n][k] == key;
    assert t.keys[k] == key;
    assert IndexOf(t.keys, key) <= k;
  }

  /** `get_address(level, as_list=False)`. */
  function GetAddressText(t: Tile, level: string): Option<string>
  {
    match GetAddress(t, level)
    case Some(a) => Some(Join(a, ":"))
    case None => None
  }

  /** `get_addresses`: the ":"-joined prefixes of the address of lengths 2 up to its full length. */
  function GetAddresses(t: Tile): (r: seq<string>)
    ensures |r| == if |t.address| > 1 then |t.address| - 1 else 0
    ensures forall k :: 0 <= k < |r| ==> r[k] == Join(t.address[..k + 2], ":")
  {
    if |t.address| > 1 then seq(|t.address| - 1, k requires 0 <= k < |t.address| - 1 => Join(t.address[..k + 2], ":"))
    else []
  }
}
