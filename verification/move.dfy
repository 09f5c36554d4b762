/**
 * How an agent walks (agent.py, `find_path` and `move`): which tile it heads for, and what the
 * tile it leaves and the tile it reaches record.
 *
 * The random parts of `find_path` are nondeterministic choices: the iteration order of an
 * address's set of tiles and `random.sample`. Routes come from the breadth-first search of the
 * maze (PathFinding.FindPath).
 */
module Movement {
  import opened Wrappers
  import opened Strings
  import opened Events
  import opened Actions
  import opened Tiles
  import opened Grid
  import PathFinding

  /** Where `find_path` stands before any route is searched. */
  datatype Goal =
    | Keep(path: seq<Coord>)      // the agent is already walking
    | Stay                        // nowhere to go: `find_path` returns []
    | Raise                       // an index, key or assertion error
    | Beside(tiles: seq<Coord>)   // the free tiles around another agent, in `get_around` order
    | Area(cells: set<Coord>)     // the tiles of an address

  /** The tiles a goal aims at. */
  predicate InGoal(g: Goal, t: Coord)
  {
    (g.Beside? && t in g.tiles) || (g.Area? && t in g.cells)
  }

  /** The first half of `find_path`: an existing path is kept; the agent stays when it is already
      at the event's address, when it waits, or when it stands on one of the target tiles. */
  function Targets(m: Maze, coord: Coord, path: seq<Coord>, address: seq<string>, agents: map<string, Coord>): (g: Goal)
    requires Grid.Valid(m) && InGrid(m.width, m.height, coord)
    ensures g.Keep? <==> path != []
    ensures g.Keep? ==> g.path == path
    ensures var here := GetAddress(m.tiles[coord.1][coord.0], "");
            g.Raise? <==>
              path == [] &&
              (here.None? ||
               (here != Some(address) &&
                (address == [] ||
                 (address[0] == "<persona>" && (|address| < 2 || address[1] !in agents || Around(m, agents[address[1]], true).None?)) ||
                 (address[0] != "<waiting>" && address[0] != "<persona>" && Join(address, ":") !in m.index))))
    ensures path == [] && GetAddress(m.tiles[coord.1][coord.0], "") == Some(address) ==> g.Stay?
    ensures path == [] && GetAddress(m.tiles[coord.1][coord.0], "").Some? && |address| > 0 && address[0] == "<waiting>" ==> g.Stay?
    ensures g.Beside? ==>
              |address| >= 2 && address[0] == "<persona>" && address[1] in agents &&
              Around(m, agents[address[1]], true) == Some(g.tiles) && coord !in g.tiles
    ensures g.Area? ==>
              |address| >= 1 && address[0] != "<waiting>" && address[0] != "<persona>" && coord !in g.cells &&
              forall c :: c in g.cells <==> Listed(m.tiles, m.width, m.height, Join(address, ":"), c)
    ensures (g.Beside? || g.Area?) ==> path == [] && GetAddress(m.tiles[coord.1][coord.0], "") !in {None, Some(address)}
    ensures forall t :: InGoal(g, t) ==> TileAt(m, t).Some? && t != coord
  {
    if path != [] then Keep(path)
    else
      var here := GetAddress(m.tiles[coord.1][coord.0], "");
      if here.None? then Raise
      else if address == here.value then Stay
      else if address == [] then Raise
      else if address[0] == "<waiting>" then Stay
      else if address[0] == "<persona>" then
        if |address| < 2 || address[1] !in agents then Raise
        else
          match Around(m, agents[address[1]], true)
          case None => Raise
          case Some(ts) => if coord in ts then Stay else Beside(ts)
      else
        match GetAddressTiles(m, address)
        case None => Raise
        case Some(cs) => if coord in cs then Stay else Area(cs)
  }

  /** `_ignore_target`: the agent's own tile, or a tile holding an event of one of the agents. */
  predicate Ignored(m: Maze, coord: Coord, agents: map<string, Coord>, t: Coord)
    requires Shaped(m.tiles, m.width, m.height)
  {
    t == coord ||
    (TileAt(m, t).Some? &&
     exists i :: 0 <= i < |TileAt(m, t).value.events| && TileAt(m, t).value.events[i].event.subject in agents)
  }

  /** The targets `find_path` keeps, in the order listed. */
  function Eligible(m: Maze, coord: Coord, agents: map<string, Coord>, ts: seq<Coord>): (r: seq<Coord>)
    requires Shaped(m.tiles, m.width, m.height)
    ensures forall t :: t in r <==> t in ts && !Ignored(m, coord, agents, t)
    ensures |r| <= |ts|
  {
    if ts == [] then []
    else
      var rest := Eligible(m, coord, agents, ts[1..]);
      assert forall t :: t in ts <==> t == ts[0] || t in ts[1..];
      if Ignored(m, coord, agents, ts[0]) then rest else [ts[0]] + rest
  }

  /** Iterating over a set: every element once, in an order the model does not fix. */
  method List(s: set<Coord>) returns (r: seq<Coord>)
    ensures forall c :: c in r <==> c in s
    ensures |r| == |s|
    ensures forall i, j :: 0 <= i < j < |r| ==> r[i] != r[j]
  {
    r := [];
    var rest := s;
    while rest != {}
      invariant rest <= s && |r| + |rest| == |s|
      invariant forall c :: c in r ==> c in s && c !in rest
      invariant forall c :: c in s ==> c in r || c in rest
      invariant forall i, j :: 0 <= i < j < |r| ==> r[i] != r[j]
      decreases |rest|
    {
      var c :| c in rest;
      r := r + [c];
      rest := rest - {c};
    }
  }

  /** `random.sample(ts, k)`: `k` entries drawn without replacement, in an order the model does
      not fix. */
  method Sample(ts: seq<Coord>, k: nat) returns (r: seq<Coord>)
    requires k <= |ts|
    ensures |r| == k
    ensures multiset(r) <= multiset(ts)
    ensures forall t :: t in r ==> t in ts
  {
    r := [];
    var pool := ts;
    while |r| < k
      invariant |r| + |pool| == |ts| && |r| <= k
      invariant multiset(r) + multiset(pool) == multiset(ts)
    {
      var i :| 0 <= i < |pool|;
      assert pool == pool[..i] + [pool[i]] + pool[i + 1..];
      r := r + [pool[i]];
      pool := pool[..i] + pool[i + 1..];
    }
    forall t | t in r ensures t in ts {
      assert multiset(r)[t] > 0;
      assert multiset(ts)[t] == multiset(r)[t] + multiset(pool)[t];
    }
  }

  /** The targets whose routes are searched: four drawn at random when there are four or more,
      otherwise all of them. */
  method Draw(ts: seq<Coord>) returns (r: seq<Coord>)
    requires ts != []
    ensures 1 <= |r| <= 4
    ensures forall t :: t in r ==> t in ts
    ensures |r| < 4 ==> r == ts
    ensures |ts| >= 4 ==> |r| == 4 && multiset(r) <= multiset(ts)
  {
    r := ts;
    if |ts| >= 4 {
      r := Sample(ts, 4);
    }
  }

  /** `min(pathes, key=len)`: the first route of least length. */
  function Nearest(routes: seq<seq<Coord>>): (k: nat)
    requires |routes| > 0
    ensures k < |routes|
    ensures forall j :: 0 <= j < |routes| ==> |routes[k]| <= |routes[j]|
    ensures forall j :: 0 <= j < k ==> |routes[j]| > |routes[k]|
  {
    if |routes| == 1 then 0
    else
      var k := Nearest(routes[..|routes| - 1]);
      if |routes[|routes| - 1]| < |routes[k]| then |routes| - 1 else k
  }

  /** What `find_path` comes to. */
  datatype Route =
    | Walking(path: seq<Coord>)   // the path the agent already had
    | Still                       // []
    | Headed(path: seq<Coord>, considered: seq<Coord>, routes: seq<seq<Coord>>, pick: nat)
    | Failed                      // an error is raised
    | Stuck(target: Coord)        // the search for a route to `target` never ends

  /** `find_path(agents)` for an agent at `coord` whose event is at `address`; `agents` maps every
      agent's name to its position. Among the eligible targets, at most four are drawn, a route is
      searched to each, and the route of least length, without its first cell, is returned. */
  method FindPath(m: Maze, coord: Coord, path: seq<Coord>, address: seq<string>, agents: map<string, Coord>)
    returns (r: Route)
    requires Grid.Valid(m) && PathFinding.Ready(m) && InGrid(m.width, m.height, coord)
    ensures var g := Targets(m, coord, path, address, agents);
            (r.Walking? <==> g.Keep?) && (r.Walking? ==> r.path == path) &&
            (g.Stay? ==> r.Still?) && (g.Raise? ==> r.Failed?) &&
            (r.Still? && !g.Stay? ==> forall t :: InGoal(g, t) ==> Ignored(m, coord, agents, t))
    ensures var g := Targets(m, coord, path, address, agents);
            r.Failed? ==>
              g.Raise? || Around(m, coord, true).None? || (g.Beside? && exists t :: t in g.tiles && !InGrid(m.width, m.height, t))
    ensures r.Stuck? ==>
              InGoal(Targets(m, coord, path, address, agents), r.target) && !Ignored(m, coord, agents, r.target) &&
              forall q :: PathFinding.IsWalk(m, q, coord) ==> PathFinding.Last(q) != r.target
    ensures r.Headed? ==> Chosen(m, coord, agents, Targets(m, coord, path, address, agents), r)
    ensures r.Headed? && !PathFinding.Collides(m, coord) ==>
              forall j, q :: 0 <= j < |r.considered| && PathFinding.IsWalk(m, q, coord) && PathFinding.Last(q) == r.considered[j] ==>
                |r.routes[r.pick]| <= |q|
  {
    var g := Targets(m, coord, path, address, agents);
    if g.Keep? {
      return Walking(g.path);
    } else if g.Stay? {
      return Still;
    } else if g.Raise? {
      return Failed;
    }
    r := Pursue(m, coord, agents, g);
  }

  /** The second half of `find_path`, once there are target tiles: they are listed, filtered,
      drawn, and a route is searched to each. */
  method Pursue(m: Maze, coord: Coord, agents: map<string, Coord>, g: Goal) returns (r: Route)
    requires PathFinding.Ready(m) && InGrid(m.width, m.height, coord)
    requires g.Beside? || g.Area?
    requires forall t :: InGoal(g, t) ==> TileAt(m, t).Some? && t != coord
    requires g.Area? ==> forall t :: t in g.cells ==> InGrid(m.width, m.height, t)
    ensures r.Still? ==> forall t :: InGoal(g, t) ==> Ignored(m, coord, agents, t)
    ensures r.Failed? ==>
              Around(m, coord, true).None? || (g.Beside? && exists t :: t in g.tiles && !InGrid(m.width, m.height, t))
    ensures r.Stuck? ==>
              InGoal(g, r.target) && !Ignored(m, coord, agents, r.target) &&
              forall q :: PathFinding.IsWalk(m, q, coord) ==> PathFinding.Last(q) != r.target
    ensures r.Still? || r.Failed? || r.Stuck? || r.Headed?
    ensures r.Headed? ==> Chosen(m, coord, agents, g, r)
    ensures r.Headed? && !PathFinding.Collides(m, coord) ==>
              forall j, q :: 0 <= j < |r.considered| && PathFinding.IsWalk(m, q, coord) && PathFinding.Last(q) == r.considered[j] ==>
                |r.routes[r.pick]| <= |q|
  {
    var listed: seq<Coord>;
    if g.Beside? {
      listed := g.tiles;
    } else {
      listed := List(g.cells);
    }
    assert forall t :: t in listed <==> InGoal(g, t);
    var ts := Eligible(m, coord, agents, listed);
    if ts == [] {
      return Still;
    }
    var considered := Draw(ts);
    var search := SearchRoutes(m, coord, considered, agents, g);
    if search.Failure? {
      return search.outcome;
    }
    r := Choose(m, coord, agents, g, considered, search.found);
  }

  /** The route of least length among those found, without its first cell. */
  function Choose(m: Maze, coord: Coord, agents: map<string, Coord>, g: Goal, considered: seq<Coord>,
                  found: seq<seq<Coord>>): (r: Route)
    requires Shaped(m.tiles, m.width, m.height)
    requires 1 <= |considered| <= 4 && |found| == |considered|
    requires forall t :: t in considered ==> InGoal(g, t) && !Ignored(m, coord, agents, t)
    requires |considered| < 4 ==> forall t :: InGoal(g, t) && !Ignored(m, coord, agents, t) ==> t in considered
    requires forall j :: 0 <= j < |found| ==>
               |found[j]| >= 1 && PathFinding.Last(found[j]) == considered[j] && PathFinding.Steps(m, found[j])
    requires !PathFinding.Collides(m, coord) ==>
               forall j :: 0 <= j < |considered| ==>
                 forall q :: PathFinding.IsWalk(m, q, coord) && PathFinding.Last(q) == considered[j] ==> |found[j]| <= |q|
    ensures r.Headed? && Chosen(m, coord, agents, g, r)
    ensures !PathFinding.Collides(m, coord) ==>
              forall j, q :: 0 <= j < |r.considered| && PathFinding.IsWalk(m, q, coord) && PathFinding.Last(q) == r.considered[j] ==>
                |r.routes[r.pick]| <= |q|
  {
    var pick := Nearest(found);
    Headed(found[pick][1..], considered, found, pick)
  }

  /** What a route found by `find_path` satisfies: it goes to one of at most four eligible
      targets (all of them when there are fewer than four), and no considered target has a
      shorter route or an earlier one of the same length. */
  ghost predicate Chosen(m: Maze, coord: Coord, agents: map<string, Coord>, g: Goal, r: Route)
    requires r.Headed? && Shaped(m.tiles, m.width, m.height)
  {
    var (cs, rs, k) := (r.considered, r.routes, r.pick);
    1 <= |cs| <= 4 && |rs| == |cs| && k < |cs| &&
    (forall t :: t in cs ==> InGoal(g, t) && !Ignored(m, coord, agents, t)) &&
    (|cs| < 4 ==> forall t :: InGoal(g, t) && !Ignored(m, coord, agents, t) ==> t in cs) &&
    (forall j :: 0 <= j < |rs| ==> |rs[j]| >= 1 && PathFinding.Last(rs[j]) == cs[j] && PathFinding.Steps(m, rs[j])) &&
    (forall j :: 0 <= j < |rs| ==> |rs[k]| <= |rs[j]|) &&
    (forall j :: 0 <= j < k ==> |rs[j]| > |rs[k]|) &&
    r.path == rs[k][1..]
  }

  /** The routes to every considered target, in order, or how the search for one fails. */
  datatype Search = Failure(outcome: Route) | Found(found: seq<seq<Coord>>)

  /** A route to every considered target, in order, or how the search for one fails. */
  method SearchRoutes(m: Maze, coord: Coord, considered: seq<Coord>, agents: map<string, Coord>, g: Goal)
    returns (r: Search)
    requires PathFinding.Ready(m) && InGrid(m.width, m.height, coord)
    requires forall t :: t in considered ==> InGoal(g, t) && !Ignored(m, coord, agents, t)
    ensures r.Failure? ==>
              (r.outcome.Failed? && (Around(m, coord, true).None? || exists t :: t in considered && !InGrid(m.width, m.height, t))) ||
              (r.outcome.Stuck? && r.outcome.target in considered &&
               forall q :: PathFinding.IsWalk(m, q, coord) ==> PathFinding.Last(q) != r.outcome.target)
    ensures r.Found? ==>
              |r.found| == |considered| &&
              forall j :: 0 <= j < |considered| ==>
                |r.found[j]| >= 1 && PathFinding.Last(r.found[j]) == considered[j] && PathFinding.Steps(m, r.found[j])
    ensures r.Found? && !PathFinding.Collides(m, coord) ==>
              forall j :: 0 <= j < |considered| ==>
                PathFinding.IsWalk(m, r.found[j], coord) &&
                forall q :: PathFinding.IsWalk(m, q, coord) && PathFinding.Last(q) == considered[j] ==> |r.found[j]| <= |q|
  {
    var found: seq<seq<Coord>> := [];
    var k := 0;
    while k < |considered|
      invariant 0 <= k <= |considered| && |found| == k
      invariant forall j :: 0 <= j < k ==>
                  |found[j]| >= 1 && PathFinding.Last(found[j]) == considered[j] && PathFinding.Steps(m, found[j])
      invariant !PathFinding.Collides(m, coord) ==>
                  forall j :: 0 <= j < k ==>
                    PathFinding.IsWalk(m, found[j], coord) &&
                    forall q :: PathFinding.IsWalk(m, q, coord) && PathFinding.Last(q) == considered[j] ==> |found[j]| <= |q|
    {
      var t := considered[k];
      if !InGrid(m.width, m.height, t) {
        return Failure(Failed);
      }
      var p := PathFinding.FindPath(m, coord, t);
      match p
      case OffGrid =>
        return Failure(Failed);
      case Unreachable =>
        return Failure(Stuck(t));
      case Found(q) =>
        found := found + [q];
      k := k + 1;
    }
    return Found(found);
  }

  /** What `move` reads and writes of an agent. */
  datatype Walker = Walker(name: string, coord: Option<Coord>, path: seq<Coord>, action: Option<Action>)

  /** A maze with the same dimensions, index and tile addresses as `m`: only events differ. */
  predicate SameGround(m: Maze, r: Maze)
  {
    r.width == m.width && r.height == m.height && r.index == m.index &&
    Shaped(m.tiles, m.width, m.height) && Shaped(r.tiles, r.width, r.height) &&
    forall y, x :: 0 <= y < m.height && 0 <= x < m.width ==> r.tiles[y][x].address == m.tiles[y][x].address
  }

  /** The maze with the tile at `c` replaced. */
  function SetTile(m: Maze, c: Coord, t: Tile): (r: Maze)
    requires Shaped(m.tiles, m.width, m.height) && InGrid(m.width, m.height, c)
    ensures r.width == m.width && r.height == m.height && r.index == m.index && Shaped(r.tiles, r.width, r.height)
    ensures forall y, x :: 0 <= y < m.height && 0 <= x < m.width ==>
              r.tiles[y][x] == if (x, y) == c then t else m.tiles[y][x]
  {
    m.(tiles := m.tiles[c.1 := m.tiles[c.1][c.0 := t]])
  }

  /** The event `move` gives an object whose tile an agent leaves: the object, idle. */
  function IdleObject(addr: seq<string>): (e: Event)
    requires |addr| > 0
    ensures Fit(e, addr[|addr| - 1], DefaultPredicate, DefaultObject) && e.address == addr
  {
    NewEvent(addr[|addr| - 1], "", "", addr, "", "")
  }

  /** Leaving the tile at `c`: the agent's events are removed from it, and when the tile belongs to a
      game object, that object goes idle. */
  function Leave(m: Maze, c: Coord, name: string): (r: Maze)
    requires Shaped(m.tiles, m.width, m.height) && InGrid(m.width, m.height, c)
    ensures SameGround(m, r)
    ensures name != "" ==>
              forall i :: 0 <= i < |r.tiles[c.1][c.0].events| ==> r.tiles[c.1][c.0].events[i].event.subject != name
  {
    var t := Vacated(m.tiles[c.1][c.0], name);
    var m1 := SetTile(m, c, t);
    if HasAddress(t, "game_object") then
      GetAddressOfOwnLevel(t, "game_object");
      var e := IdleObject(GetAddress(t, "game_object").value);
      var r := UpdateObj(m1, c, e);
      assert r.tiles[c.1][c.0] == t || r.tiles[c.1][c.0] == UpdateEvents(t, e, "subject").0;
      UpdateKeepsAbsent(t, e, name);
      r
    else m1
  }

  /** `remove_events(subject=name)` on one tile: afterwards no event of that subject is left. */
  function Vacated(t: Tile, name: string): (r: Tile)
    ensures r.coord == t.coord && r.address == t.address && r.keys == t.keys
    ensures name != "" ==> forall i :: 0 <= i < |r.events| ==> r.events[i].event.subject != name
  {
    var r := RemoveEvents(t, name, None).0;
    assert forall i :: 0 <= i < |r.events| ==> r.events[i] in r.events;
    r
  }

  /** Rewriting events to one of another subject never brings a subject back. */
  lemma UpdateKeepsAbsent(t: Tile, e: Event, name: string)
    ensures (forall i :: 0 <= i < |t.events| ==> t.events[i].event.subject != name) ==>
              forall i :: 0 <= i < |UpdateEvents(t, e, "subject").0.events| ==>
                UpdateEvents(t, e, "subject").0.events[i].event.subject != name
  {
  }

  /** Reaching the tile at `c` with no path left: the action's event takes the place of the events
      of the same subject, or is added when there are none, and the action's object event, if any,
      goes to the object's tiles. Without an action nothing happens. */
  function Arrive(m: Maze, c: Coord, action: Option<Action>): (r: Maze)
    requires Shaped(m.tiles, m.width, m.height) && InGrid(m.width, m.height, c)
    ensures SameGround(m, r)
    ensures action.None? ==> r == m
  {
    match action
    case None => m
    case Some(a) =>
      var (t, updated) := UpdateEvents(m.tiles[c.1][c.0], a.event, "subject");
      var m1 := SetTile(m, c, if updated == [] then AddEvent(t, a.event) else t);
      match a.objEvent
      case None => m1
      case Some(o) => UpdateObj(m1, c, o)
  }

  /** `move(coord, path)`: leaving the old tile when the agent changes tiles, reaching the new one
      when no path is given, and taking the new coordinate and the path. */
  function Move(m: Maze, w: Walker, coord: Coord, path: seq<Coord>): (r: (Maze, Walker))
    requires Shaped(m.tiles, m.width, m.height) && InGrid(m.width, m.height, coord)
    requires w.coord.Some? ==> InGrid(m.width, m.height, w.coord.value)
    ensures r.1.name == w.name && r.1.action == w.action
    ensures r.1.coord == Some(coord) && r.1.path == path
    ensures SameGround(m, r.0)
  {
    var left := if w.coord.Some? && w.coord.value != coord then Leave(m, w.coord.value, w.name) else m;
    var arrived := if path == [] then Arrive(left, coord, w.action) else left;
    (arrived, w.(coord := Some(coord), path := path))
  }

  /** The tile shows `e` as its subject's one event: `e` is there, and every event of the same
      subject is `e`. */
  predicate Shows(t: Tile, e: Event)
  {
    (exists i :: 0 <= i < |t.events| && t.events[i].event == e) &&
    forall i :: 0 <= i < |t.events| && t.events[i].event.subject == e.subject ==> t.events[i].event == e
  }

  /** Moving only rewrites events, so the maze's index stays exact. */
  lemma MoveKeepsValid(m: Maze, w: Walker, coord: Coord, path: seq<Coord>)
    requires Grid.Valid(m) && InGrid(m.width, m.height, coord)
    requires w.coord.Some? ==> InGrid(m.width, m.height, w.coord.value)
    ensures Grid.Valid(Move(m, w, coord, path).0)
  {
    SameAddressesKeepValid(m, Move(m, w, coord, path).0);
  }

  /** After a move to another tile, no event of the agent is left on the tile it left, unless its
      own object event, put down on arrival, names the agent. */
  lemma MoveLeavesOldTile(m: Maze, w: Walker, coord: Coord, path: seq<Coord>)
    requires Shaped(m.tiles, m.width, m.height) && InGrid(m.width, m.height, coord)
    requires w.coord.Some? && InGrid(m.width, m.height, w.coord.value) && w.coord.value != coord
    requires w.name != ""
    requires path == [] && w.action.Some? && w.action.value.objEvent.Some? ==> w.action.value.objEvent.value.subject != w.name
    ensures var (x, y) := w.coord.value;
            var t := Move(m, w, coord, path).0.tiles[y][x];
            forall i :: 0 <= i < |t.events| ==> t.events[i].event.subject != w.name
  {
    var from := w.coord.value;
    var left := Leave(m, from, w.name);
    if path == [] && w.action.Some? {
      var a := w.action.value;
      var (t, updated) := UpdateEvents(left.tiles[coord.1][coord.0], a.event, "subject");
      var m1 := SetTile(left, coord, if updated == [] then AddEvent(t, a.event) else t);
      assert m1.tiles[from.1][from.0] == left.tiles[from.1][from.0];
      if a.objEvent.Some? {
        var r := UpdateObj(m1, coord, a.objEvent.value);
        assert r.tiles[from.1][from.0] == m1.tiles[from.1][from.0] ||
               r.tiles[from.1][from.0] == UpdateEvents(m1.tiles[from.1][from.0], a.objEvent.value, "subject").0;
        UpdateKeepsAbsent(m1.tiles[from.1][from.0], a.objEvent.value, w.name);
      }
    }
  }

  /** With a path still to walk, the tile reached is left as it was: only the tile left changes. */
  lemma MoveOnPath(m: Maze, w: Walker, coord: Coord, path: seq<Coord>)
    requires Shaped(m.tiles, m.width, m.height) && InGrid(m.width, m.height, coord)
    requires w.coord.Some? ==> InGrid(m.width, m.height, w.coord.value)
    requires path != []
    ensures Move(m, w, coord, path).0 == if w.coord.Some? && w.coord.value != coord then Leave(m, w.coord.value, w.name) else m
  {
  }

  /** Arriving with an action, the tile shows the action's event, provided the object event is
      about another subject. */
  lemma ArriveShows(m: Maze, c: Coord, a: Action)
    requires Shaped(m.tiles, m.width, m.height) && InGrid(m.width, m.height, c)
    requires a.objEvent.Some? ==> a.objEvent.value.subject != a.event.subject
    ensures Shows(Arrive(m, c, Some(a)).tiles[c.1][c.0], a.event)
  {
    var t0 := m.tiles[c.1][c.0];
    var (t, updated) := UpdateEvents(t0, a.event, "subject");
    var t2 := if updated == [] then AddEvent(t, a.event) else t;
    UpdatedShows(t0, a.event);
    var m1 := SetTile(m, c, t2);
    assert m1.tiles[c.1][c.0] == t2;
    if a.objEvent.Some? {
      var r := UpdateObj(m1, c, a.objEvent.value);
      assert r.tiles[c.1][c.0] == t2 || r.tiles[c.1][c.0] == UpdateEvents(t2, a.objEvent.value, "subject").0;
      OtherUpdateKeepsShows(t2, a.event, a.objEvent.value);
    }
  }

  /** `update_events(e)` and then `add_event(e)` when nothing was updated: the tile shows `e`. */
  lemma UpdatedShows(t: Tile, e: Event)
    ensures var (u, updated) := UpdateEvents(t, e, "subject");
            Shows(if updated == [] then AddEvent(u, e) else u, e)
  {
    var (u, updated) := UpdateEvents(t, e, "subject");
    if updated == [] {
      forall i | 0 <= i < |u.events| ensures !Same(u.events[i].event, e) {
        assert t.events[i].tag !in updated;
        assert t.events[i].event.subject != e.subject;
      }
      var r := AddEvent(u, e);
      assert r.events[|r.events| - 1].event == e;
    } else {
      var g := updated[0];
      assert g in updated;
      var i :| 0 <= i < |t.events| && t.events[i].tag == g && t.events[i].event.subject == e.subject;
      assert u.events[i].event == e;
    }
  }

  /** Rewriting the events of another subject leaves a shown event shown. */
  lemma OtherUpdateKeepsShows(t: Tile, e: Event, o: Event)
    requires o.subject != e.subject && Shows(t, e)
    ensures Shows(UpdateEvents(t, o, "subject").0, e)
  {
    var i :| 0 <= i < |t.events| && t.events[i].event == e;
    assert UpdateEvents(t, o, "subject").0.events[i].event == e;
  }

  /** When no path is given, the agent's tile ends up showing its action's event. */
  lemma MoveArrives(m: Maze, w: Walker, coord: Coord)
    requires Shaped(m.tiles, m.width, m.height) && InGrid(m.width, m.height, coord)
    requires w.coord.Some? ==> InGrid(m.width, m.height, w.coord.value)
    requires w.action.Some? && (w.action.value.objEvent.Some? ==> w.action.value.objEvent.value.subject != w.action.value.event.subject)
    ensures Shows(Move(m, w, coord, []).0.tiles[coord.1][coord.0], w.action.value.event)
  {
    var left := if w.coord.Some? && w.coord.value != coord then Leave(m, w.coord.value, w.name) else m;
    ArriveShows(left, coord, w.action.value);
  }

  /** Leaving a tile of a game object whose address is indexed puts the whole object to rest: on
      every tile indexed under its address, each event of the object is the idle one. */
  lemma LeaveIdlesObject(m: Maze, c: Coord, name: string)
    requires Shaped(m.tiles, m.width, m.height) && InGrid(m.width, m.height, c)
    requires HasAddress(m.tiles[c.1][c.0], "game_object")
    requires GetAddress(m.tiles[c.1][c.0], "game_object").Some?
    requires var addr := GetAddress(m.tiles[c.1][c.0], "game_object").value;
             |addr| > 0 && Join(addr, ":") in m.index
    ensures var addr := GetAddress(m.tiles[c.1][c.0], "game_object").value;
            var r := Leave(m, c, name);
            forall y, x, i :: 0 <= y < m.height && 0 <= x < m.width && (x, y) in m.index[Join(addr, ":")] &&
                              0 <= i < |r.tiles[y][x].events| && r.tiles[y][x].events[i].event.subject == addr[|addr| - 1] ==>
                                r.tiles[y][x].events[i].event == IdleObject(addr)
  {
    var t := Vacated(m.tiles[c.1][c.0], name);
    var addr := GetAddress(m.tiles[c.1][c.0], "game_object").value;
    assert GetAddress(t, "game_object") == Some(addr);
    var m1 := SetTile(m, c, t);
    assert Applies(m1, c, IdleObject(addr));
  }
}
