/**
 * The world map (the `Maze` class of maze.py): a height-by-width grid of tiles indexed
 * `tiles[y][x]`, and an index from every ":"-joined address prefix of length two or more to the
 * coordinates of the tiles that carry it.
 */
module Grid {
  import opened Wrappers
  import opened Strings
  import opened Events
  import opened Tiles

  datatype Maze = Maze(width: int, height: int, tiles: seq<seq<Tile>>, index: map<string, set<Coord>>)

  predicate Shaped(tiles: seq<seq<Tile>>, w: int, h: int)
  {
    |tiles| == h && forall y :: 0 <= y < h ==> |tiles[y]| == w
  }

  predicate InGrid(w: int, h: int, c: Coord)
  {
    0 <= c.0 < w && 0 <= c.1 < h
  }

  /** Python list indexing: a negative index counts from the end, anything else out of range raises. */
  function PyIndex(i: int, n: int): (r: Option<int>)
    ensures r.Some? <==> -n <= i < n
    ensures r.Some? ==> 0 <= r.value < n && (r.value == i || r.value == i + n)
  {
    if 0 <= i < n then Some(i) else if -n <= i < 0 then Some(i + n) else None
  }

  /** `tile_at(coord)`, with Python's indexing of `tiles[y][x]`. */
  function TileAt(m: Maze, c: Coord): (r: Option<Tile>)
    requires Shaped(m.tiles, m.width, m.height)
    ensures InGrid(m.width, m.height, c) ==> r == Some(m.tiles[c.1][c.0])
    ensures r.Some? <==> -m.height <= c.1 < m.height && -m.width <= c.0 < m.width
  {
    match (PyIndex(c.1, m.height), PyIndex(c.0, m.width))
    case (Some(y), Some(x)) => Some(m.tiles[y][x])
    case _ => None
  }

  /** Where a tile of the configuration goes and what it says. */
  datatype TileConfig = TileConfig(coord: Coord, address: seq<string>, collision: bool)

  /** A tile with only the world in its address and no collision. */
  function DefaultTile(x: int, y: int, world: string, keys: seq<string>): Tile
  {
    NewTile((x, y), world, keys, [], false)
  }

  function DefaultTiles(w: nat, h: nat, world: string, keys: seq<string>): (r: seq<seq<Tile>>)
    ensures Shaped(r, w, h)
    ensures forall y, x :: 0 <= y < h && 0 <= x < w ==> r[y][x] == DefaultTile(x, y, world, keys)
  {
    seq(h, y => seq(w, x => DefaultTile(x, y, world, keys)))
  }

  /** The cell a configured coordinate lands in: `tiles[y][x] = ...` with Python's indexing. */
  function Landing(c: Coord, w: int, h: int): Option<Coord>
  {
    match (PyIndex(c.0, w), PyIndex(c.1, h))
    case (Some(x), Some(y)) => Some((x, y))
    case _ => None
  }

  /** Places the configured tiles one after the other; a coordinate outside the grid raises. */
  function Place(tiles: seq<seq<Tile>>, w: int, h: int, world: string, keys: seq<string>, cfgs: seq<TileConfig>)
    : (r: Option<seq<seq<Tile>>>)
    requires Shaped(tiles, w, h)
    ensures r.Some? ==> Shaped(r.value, w, h)
    ensures r.Some? <==> forall i :: 0 <= i < |cfgs| ==> Landing(cfgs[i].coord, w, h).Some?
    decreases |cfgs|
  {
    if cfgs == [] then Some(tiles)
    else
      var last := cfgs[|cfgs| - 1];
      match Place(tiles, w, h, world, keys, cfgs[..|cfgs| - 1])
      case None => None
      case Some(before) =>
        match Landing(last.coord, w, h)
        case None => None
        case Some(p) =>
          Some(before[p.1 := before[p.1][p.0 := NewTile(last.coord, world, keys, last.address, last.collision)]])
  }

  /** The position in the configuration of the last tile that lands on `p`, if any. */
  function LastLanding(cfgs: seq<TileConfig>, w: int, h: int, p: Coord): (r: Option<nat>)
    ensures r.Some? ==> r.value < |cfgs| && Landing(cfgs[r.value].coord, w, h) == Some(p)
    ensures r.Some? ==> forall i :: r.value < i < |cfgs| ==> Landing(cfgs[i].coord, w, h) != Some(p)
    ensures r.None? ==> forall i :: 0 <= i < |cfgs| ==> Landing(cfgs[i].coord, w, h) != Some(p)
    decreases |cfgs|
  {
    if cfgs == [] then None
    else if Landing(cfgs[|cfgs| - 1].coord, w, h) == Some(p) then Some(|cfgs| - 1)
    else LastLanding(cfgs[..|cfgs| - 1], w, h, p)
  }

  /** Later configuration entries overwrite earlier ones: each cell holds the tile of the last entry
      that lands on it, or keeps the tile it had. */
  lemma {:induction false} PlaceLastWins(tiles: seq<seq<Tile>>, w: int, h: int, world: string, keys: seq<string>,
                                         cfgs: seq<TileConfig>, p: Coord)
    requires Shaped(tiles, w, h) && InGrid(w, h, p)
    requires Place(tiles, w, h, world, keys, cfgs).Some?
    ensures var r := Place(tiles, w, h, world, keys, cfgs).value;
            match LastLanding(cfgs, w, h, p)
            case Some(i) => r[p.1][p.0] == NewTile(cfgs[i].coord, world, keys, cfgs[i].address, cfgs[i].collision)
            case None => r[p.1][p.0] == tiles[p.1][p.0]
    decreases |cfgs|
  {
    if cfgs != [] {
      PlaceLastWins(tiles, w, h, world, keys, cfgs[..|cfgs| - 1], p);
    }
  }

  /** Tile `c` carries address `a`: `a` is one of its `get_addresses()`. */
  predicate Listed(tiles: seq<seq<Tile>>, w: int, h: int, a: string, c: Coord)
    requires Shaped(tiles, w, h)
  {
    InGrid(w, h, c) && a in GetAddresses(tiles[c.1][c.0])
  }

  /** `address_tiles` holds exactly the carried addresses, each with exactly the tiles carrying it. */
  ghost predicate IndexExact(tiles: seq<seq<Tile>>, w: int, h: int, idx: map<string, set<Coord>>)
    requires Shaped(tiles, w, h)
  {
    (forall a, c :: Listed(tiles, w, h, a, c) ==> a in idx && c in idx[a]) &&
    (forall a, c :: a in idx && c in idx[a] ==> Listed(tiles, w, h, a, c)) &&
    (forall a :: a in idx ==> idx[a] != {})
  }

  /** The pairs the index loops have visited: whole rows above `i`, cells left of `j` in row `i`,
      and the first `k` addresses of cell (j, i). */
  predicate Visited(tiles: seq<seq<Tile>>, w: int, h: int, a: string, c: Coord, i: int, j: int, k: int)
    requires Shaped(tiles, w, h)
  {
    Listed(tiles, w, h, a, c) &&
    (c.1 < i || (c.1 == i && (c.0 < j || (c.0 == j && a in Upto(GetAddresses(tiles[c.1][c.0]), k)))))
  }

  /** The first k elements, with k clipped to the sequence. */
  function Upto<T>(s: seq<T>, k: int): seq<T>
  {
    if k <= 0 then [] else if k >= |s| then s else s[..k]
  }

  /** Every visited pair is indexed. */
  ghost predicate Covers(tiles: seq<seq<Tile>>, w: int, h: int, idx: map<string, set<Coord>>, i: int, j: int, k: int)
    requires Shaped(tiles, w, h)
  {
    forall a, c :: Visited(tiles, w, h, a, c, i, j, k) ==> a in idx && c in idx[a]
  }

  /** Every indexed pair has been visited. */
  ghost predicate Sound(tiles: seq<seq<Tile>>, w: int, h: int, idx: map<string, set<Coord>>, i: int, j: int, k: int)
    requires Shaped(tiles, w, h)
  {
    forall a, c :: a in idx && c in idx[a] ==> Visited(tiles, w, h, a, c, i, j, k)
  }

  ghost predicate NoEmptyEntry(idx: map<string, set<Coord>>)
  {
    forall a :: a in idx ==> idx[a] != {}
  }

  /** The index holds exactly the visited pairs. */
  ghost predicate IndexUpTo(tiles: seq<seq<Tile>>, w: int, h: int, idx: map<string, set<Coord>>, i: int, j: int, k: int)
    requires Shaped(tiles, w, h)
  {
    Covers(tiles, w, h, idx, i, j, k) && Sound(tiles, w, h, idx, i, j, k) && NoEmptyEntry(idx)
  }

  /** The index build: `address_tiles.setdefault(add, set()).add((j, i))` for every cell in row order
      and every address of that cell. */
  method BuildIndex(tiles: seq<seq<Tile>>, w: nat, h: nat) returns (idx: map<string, set<Coord>>)
    requires Shaped(tiles, w, h)
    ensures IndexExact(tiles, w, h, idx)
  {
    idx := map[];
    var i := 0;
    while i < h
      invariant 0 <= i <= h
      invariant IndexUpTo(tiles, w, h, idx, i, 0, 0)
    {
      idx := IndexRow(tiles, w, h, idx, i);
      i := i + 1;
    }
    IndexDone(tiles, w, h, idx);
  }

  /** The loop over the cells of row `i`. */
  method IndexRow(tiles: seq<seq<Tile>>, w: nat, h: nat, idx0: map<string, set<Coord>>, i: int)
    returns (idx: map<string, set<Coord>>)
    requires Shaped(tiles, w, h) && 0 <= i < h
    requires IndexUpTo(tiles, w, h, idx0, i, 0, 0)
    ensures IndexUpTo(tiles, w, h, idx, i + 1, 0, 0)
  {
    idx := idx0;
    var j := 0;
    while j < w
      invariant 0 <= j <= w
      invariant IndexUpTo(tiles, w, h, idx, i, j, 0)
    {
      idx := IndexCell(tiles, w, h, idx, i, j);
      j := j + 1;
    }
    IndexNextRow(tiles, w, h, idx, i);
  }

  /** The loop over the addresses of cell (j, i). */
  method IndexCell(tiles: seq<seq<Tile>>, w: nat, h: nat, idx0: map<string, set<Coord>>, i: int, j: int)
    returns (idx: map<string, set<Coord>>)
    requires Shaped(tiles, w, h) && 0 <= i < h && 0 <= j < w
    requires IndexUpTo(tiles, w, h, idx0, i, j, 0)
    ensures IndexUpTo(tiles, w, h, idx, i, j + 1, 0)
  {
    idx := idx0;
    var addrs := GetAddresses(tiles[i][j]);
    var k := 0;
    while k < |addrs|
      invariant 0 <= k <= |addrs|
      invariant IndexUpTo(tiles, w, h, idx, i, j, k)
    {
      var before := idx;
      var add := addrs[k];
      var cur := if add in idx then idx[add] else {};
      idx := idx[add := cur + {(j, i)}];
      StepCovers(tiles, w, h, before, idx, i, j, k);
      StepSound(tiles, w, h, before, idx, i, j, k);
      k := k + 1;
    }
    IndexNextCell(tiles, w, h, idx, i, j);
  }

  /** Adding the pair for address k of cell (j, i) keeps every visited pair indexed. */
  lemma StepCovers(tiles: seq<seq<Tile>>, w: int, h: int, before: map<string, set<Coord>>,
                   after: map<string, set<Coord>>, i: int, j: int, k: int)
    requires Shaped(tiles, w, h) && 0 <= i < h && 0 <= j < w
    requires 0 <= k < |GetAddresses(tiles[i][j])|
    requires Covers(tiles, w, h, before, i, j, k)
    requires var add := GetAddresses(tiles[i][j])[k];
             after == before[add := (if add in before then before[add] else {}) + {(j, i)}]
    ensures Covers(tiles, w, h, after, i, j, k + 1)
  {
    var k1 := k + 1;
    forall a, c | Visited(tiles, w, h, a, c, i, j, k1) ensures a in after && c in after[a] {
      VisitedStep(tiles, w, h, a, c, i, j, k);
    }
  }

  /** Adding the pair for address k of cell (j, i) indexes nothing unvisited and no empty entry. */
  lemma StepSound(tiles: seq<seq<Tile>>, w: int, h: int, before: map<string, set<Coord>>,
                  after: map<string, set<Coord>>, i: int, j: int, k: int)
    requires Shaped(tiles, w, h) && 0 <= i < h && 0 <= j < w
    requires 0 <= k < |GetAddresses(tiles[i][j])|
    requires Sound(tiles, w, h, before, i, j, k) && NoEmptyEntry(before)
    requires var add := GetAddresses(tiles[i][j])[k];
             after == before[add := (if add in before then before[add] else {}) + {(j, i)}]
    ensures Sound(tiles, w, h, after, i, j, k + 1) && NoEmptyEntry(after)
  {
    var k1 := k + 1;
    forall a, c | a in after && c in after[a] ensures Visited(tiles, w, h, a, c, i, j, k1) {
      VisitedStep(tiles, w, h, a, c, i, j, k);
    }
  }

  /** Taking one more address of cell (j, i) adds exactly that pair to the visited ones. */
  lemma VisitedStep(tiles: seq<seq<Tile>>, w: int, h: int, a: string, c: Coord, i: int, j: int, k: int)
    requires Shaped(tiles, w, h) && 0 <= i < h && 0 <= j < w
    requires 0 <= k < |GetAddresses(tiles[i][j])|
    ensures Visited(tiles, w, h, a, c, i, j, k + 1) <==>
            Visited(tiles, w, h, a, c, i, j, k) || (a == GetAddresses(tiles[i][j])[k] && c == (j, i))
  {
    var addrs := GetAddresses(tiles[i][j]);
    assert Upto(addrs, k + 1) == Upto(addrs, k) + [addrs[k]];
    assert addrs[k] in addrs;
  }

  lemma IndexNextCell(tiles: seq<seq<Tile>>, w: int, h: int, idx: map<string, set<Coord>>, i: int, j: int)
    requires Shaped(tiles, w, h) && 0 <= i < h && 0 <= j < w
    requires IndexUpTo(tiles, w, h, idx, i, j, |GetAddresses(tiles[i][j])|)
    ensures IndexUpTo(tiles, w, h, idx, i, j + 1, 0)
  {
    var n := |GetAddresses(tiles[i][j])|;
    var j1 := j + 1;
    forall a, c | Visited(tiles, w, h, a, c, i, j1, 0) ensures a in idx && c in idx[a] {
      assert Visited(tiles, w, h, a, c, i, j, n);
    }
    forall a, c | a in idx && c in idx[a] ensures Visited(tiles, w, h, a, c, i, j1, 0) {
      assert Visited(tiles, w, h, a, c, i, j, n);
    }
  }

  lemma IndexNextRow(tiles: seq<seq<Tile>>, w: int, h: int, idx: map<string, set<Coord>>, i: int)
    requires Shaped(tiles, w, h) && 0 <= i < h
    requires IndexUpTo(tiles, w, h, idx, i, w, 0)
    ensures IndexUpTo(tiles, w, h, idx, i + 1, 0, 0)
  {
    var i1 := i + 1;
    forall a, c | Visited(tiles, w, h, a, c, i1, 0, 0) ensures a in idx && c in idx[a] {
      assert Visited(tiles, w, h, a, c, i, w, 0);
    }
    forall a, c | a in idx && c in idx[a] ensures Visited(tiles, w, h, a, c, i1, 0, 0) {
      assert Visited(tiles, w, h, a, c, i, w, 0);
    }
  }

  lemma IndexDone(tiles: seq<seq<Tile>>, w: int, h: int, idx: map<string, set<Coord>>)
    requires Shaped(tiles, w, h)
    requires IndexUpTo(tiles, w, h, idx, h, 0, 0)
    ensures IndexExact(tiles, w, h, idx)
  {
    forall a, c | Listed(tiles, w, h, a, c) ensures a in idx && c in idx[a] {
      assert Visited(tiles, w, h, a, c, h, 0, 0);
    }
    forall a, c | a in idx && c in idx[a] ensures Listed(tiles, w, h, a, c) {
      assert Visited(tiles, w, h, a, c, h, 0, 0);
    }
  }

  /** The maze constructor: default tiles, the configured tiles on top, then the address index. */
  method NewMaze(w: nat, h: nat, world: string, keys: seq<string>, cfgs: seq<TileConfig>) returns (r: Option<Maze>)
    ensures r.Some? <==> forall i :: 0 <= i < |cfgs| ==> Landing(cfgs[i].coord, w, h).Some?
    ensures r.Some? ==> r.value.width == w && r.value.height == h && Shaped(r.value.tiles, w, h)
    ensures r.Some? ==> r.value.tiles == Place(DefaultTiles(w, h, world, keys), w, h, world, keys, cfgs).value
    ensures r.Some? ==> IndexExact(r.value.tiles, w, h, r.value.index)
  {
    var placed := Place(DefaultTiles(w, h, world, keys), w, h, world, keys, cfgs);
    if placed.None? {
      return None;
    }
    var idx := BuildIndex(placed.value, w, h);
    return Some(Maze(w, h, placed.value, idx));
  }

  ghost predicate Valid(m: Maze)
  {
    m.width >= 0 && m.height >= 0 && Shaped(m.tiles, m.width, m.height) &&
    IndexExact(m.tiles, m.width, m.height, m.index)
  }

  /** `get_address_tiles(address)`: the tiles of an indexed address. The fallback for an unknown
      address calls `random.choice` on a dictionary view, which raises, so it is a failure here. */
  function GetAddressTiles(m: Maze, address: seq<string>): (r: Option<set<Coord>>)
    requires Valid(m)
    ensures r.Some? <==> Join(address, ":") in m.index
    ensures r.Some? ==> forall c :: c in r.value <==> Listed(m.tiles, m.width, m.height, Join(address, ":"), c)
  {
    var a := Join(address, ":");
    if a in m.index then Some(m.index[a]) else None
  }

  /** `update_obj(coord, obj_event)`: when the tile at `coord` belongs to the event's object and that
      object is indexed, every tile of the object takes the event in its slots for that subject. */
  function UpdateObj(m: Maze, coord: Coord, e: Event): (r: Maze)
    requires Shaped(m.tiles, m.width, m.height) && InGrid(m.width, m.height, coord)
    ensures r.width == m.width && r.height == m.height && r.index == m.index
    ensures Shaped(r.tiles, r.width, r.height)
    ensures !Applies(m, coord, e) ==> r == m
    ensures forall y, x :: 0 <= y < m.height && 0 <= x < m.width ==> r.tiles[y][x].address == m.tiles[y][x].address
    ensures Applies(m, coord, e) ==>
              forall y, x :: 0 <= y < m.height && 0 <= x < m.width ==>
                r.tiles[y][x] == if (x, y) in m.index[Join(e.address, ":")]
                                 then UpdateEvents(m.tiles[y][x], e, "subject").0 else m.tiles[y][x]
  {
    if !Applies(m, coord, e) then m
    else
      var targets := m.index[Join(e.address, ":")];
      m.(tiles := seq(m.height, y requires 0 <= y < m.height =>
                      UpdateRow(m.tiles[y], y, targets, e)))
  }

  /** One row of `update_obj`: the tiles of the row at the target coordinates take the event. */
  function UpdateRow(row: seq<Tile>, y: int, targets: set<Coord>, e: Event): (r: seq<Tile>)
    ensures |r| == |row|
    ensures forall x :: 0 <= x < |row| ==>
              r[x] == if (x, y) in targets then UpdateEvents(row[x], e, "subject").0 else row[x]
    ensures forall x :: 0 <= x < |row| ==> r[x].address == row[x].address
  {
    seq(|row|, x requires 0 <= x < |row| =>
      if (x, y) in targets then UpdateEvents(row[x], e, "subject").0 else row[x])
  }

  /** The three guards of `update_obj`, all of which must pass. */
  predicate Applies(m: Maze, coord: Coord, e: Event)
    requires Shaped(m.tiles, m.width, m.height) && InGrid(m.width, m.height, coord)
  {
    var t := m.tiles[coord.1][coord.0];
    HasAddress(t, "game_object") &&
    GetAddress(t, "game_object") == Some(e.address) &&
    Join(e.address, ":") in m.index
  }

  /** Updating objects rewrites events only: every tile keeps its address, so the index stays exact. */
  lemma UpdateObjKeepsIndex(m: Maze, coord: Coord, e: Event)
    requires Valid(m) && InGrid(m.width, m.height, coord)
    ensures Valid(UpdateObj(m, coord, e))
  {
    SameAddressesKeepValid(m, UpdateObj(m, coord, e));
  }

  /** A maze that differs from a valid one only in the events of its tiles is valid. */
  lemma SameAddressesKeepValid(m: Maze, r: Maze)
    requires Valid(m)
    requires r.width == m.width && r.height == m.height && r.index == m.index
    requires Shaped(r.tiles, r.width, r.height)
    requires forall y, x :: 0 <= y < m.height && 0 <= x < m.width ==> r.tiles[y][x].address == m.tiles[y][x].address
    ensures Valid(r)
  {
    SameAddressesSameIndex(m.tiles, r.tiles, m.width, m.height, m.index);
  }

  /** An index exact for one grid is exact for any grid whose tiles carry the same addresses. */
  lemma SameAddressesSameIndex(t1: seq<seq<Tile>>, t2: seq<seq<Tile>>, w: int, h: int, idx: map<string, set<Coord>>)
    requires Shaped(t1, w, h) && Shaped(t2, w, h)
    requires forall y, x :: 0 <= y < h && 0 <= x < w ==> t2[y][x].address == t1[y][x].address
    requires IndexExact(t1, w, h, idx)
    ensures IndexExact(t2, w, h, idx)
  {
    SameAddressesSameListing(t1, t2, w, h);
  }

  /** Grids whose tiles carry the same addresses list the same (address, cell) pairs. */
  lemma SameAddressesSameListing(t1: seq<seq<Tile>>, t2: seq<seq<Tile>>, w: int, h: int)
    requires Shaped(t1, w, h) && Shaped(t2, w, h)
    requires forall y, x :: 0 <= y < h && 0 <= x < w ==> t2[y][x].address == t1[y][x].address
    ensures forall a, c :: Listed(t2, w, h, a, c) <==> Listed(t1, w, h, a, c)
  {
    forall c: Coord | InGrid(w, h, c) ensures GetAddresses(t2[c.1][c.0]) == GetAddresses(t1[c.1][c.0]) {
      assert t2[c.1][c.0].address == t1[c.1][c.0].address;
    }
  }

  /** `get_around(coord)`: left, right, up, down, in that order. Only when collision tiles are to be
      left out is each neighbour looked up, and then a neighbour outside the grid on the far side
      raises. */
  function Around(m: Maze, c: Coord, noCollision: bool): (r: Option<seq<Coord>>)
    requires Shaped(m.tiles, m.width, m.height)
    ensures r.Some? <==> !noCollision || forall n :: n in Candidates(c) ==> TileAt(m, n).Some?
    ensures !noCollision ==> r == Some(Candidates(c))
    ensures r.Some? ==> forall n :: n in r.value ==> n in Candidates(c)
    ensures r.Some? && noCollision ==> forall n :: n in r.value ==> !TileAt(m, n).value.collision
    ensures r.Some? && noCollision ==>
              forall n :: n in Candidates(c) && !TileAt(m, n).value.collision ==> n in r.value
  {
    var cs := Candidates(c);
    if !noCollision then Some(cs)
    else if forall n :: n in cs ==> TileAt(m, n).Some? then Some(KeepWalkable(m, cs))
    else None
  }

  function Candidates(c: Coord): seq<Coord>
  {
    [(c.0 - 1, c.1), (c.0 + 1, c.1), (c.0, c.1 - 1), (c.0, c.1 + 1)]
  }

  function KeepWalkable(m: Maze, cs: seq<Coord>): (r: seq<Coord>)
    requires Shaped(m.tiles, m.width, m.height)
    requires forall n :: n in cs ==> TileAt(m, n).Some?
    ensures forall n :: n in r <==> n in cs && !TileAt(m, n).value.collision
    ensures |r| <= |cs|
  {
    if cs == [] then []
    else
      var rest := KeepWalkable(m, cs[1..]);
      assert forall n :: n in cs <==> n == cs[0] || n in cs[1..];
      if TileAt(m, cs[0]).value.collision then rest else [cs[0]] + rest
  }

  /** The order `get_around` reports: left before right before up before down. */
  lemma AroundOrder(m: Maze, c: Coord)
    requires Shaped(m.tiles, m.width, m.height)
    requires 1 <= c.0 < m.width - 1 && 1 <= c.1 < m.height - 1
    ensures Around(m, c, false) == Some([(c.0 - 1, c.1), (c.0 + 1, c.1), (c.0, c.1 - 1), (c.0, c.1 + 1)])
    ensures forall n :: n in Candidates(c) ==> InGrid(m.width, m.height, n)
  {
  }

  /** `get_scope(coord, {"mode": "box", "vision_r": r})`: the cells of the square of radius r around
      `coord`, clipped to the grid, column by column; any other mode sees nothing. */
  function GetScope(m: Maze, coord: Coord, vision: int, mode: string): (r: seq<Coord>)
    ensures mode != "box" ==> r == []
    ensures forall c :: c in r ==> InGrid(m.width, m.height, c)
  {
    if mode != "box" then []
    else
      var x0 := Max(coord.0 - vision, 0);
      var x1 := Min(coord.0 + vision + 1, m.width);
      var y0 := Max(coord.1 - vision, 0);
      var y1 := Min(coord.1 + vision + 1, m.height);
      Product(x0, x1, y0, y1)
  }

  function Max(a: int, b: int): int { if a < b then b else a }
  function Min(a: int, b: int): int { if a < b then a else b }

  /** `product(range(x0, x1), range(y0, y1))`: x varies slowest. */
  function Product(x0: int, x1: int, y0: int, y1: int): (r: seq<Coord>)
    ensures forall c :: c in r <==> x0 <= c.0 < x1 && y0 <= c.1 < y1
    ensures |r| == (if x0 < x1 && y0 < y1 then (x1 - x0) * (y1 - y0) else 0)
    decreases x1 - x0
  {
    if x0 >= x1 || y0 >= y1 then []
    else
      var column := seq(y1 - y0, k requires 0 <= k < y1 - y0 => (x0, y0 + k));
      assert forall c: Coord :: c in column <==> c.0 == x0 && y0 <= c.1 < y1 by {
        forall c: Coord | c.0 == x0 && y0 <= c.1 < y1 ensures c in column {
          assert column[c.1 - y0] == c;
        }
      }
      column + Product(x0 + 1, x1, y0, y1)
  }

  /** The box holds exactly the grid cells within distance `vision` of `coord` on both axes. */
  lemma ScopeIsClippedBox(m: Maze, coord: Coord, vision: int, c: Coord)
    ensures c in GetScope(m, coord, vision, "box") <==>
              InGrid(m.width, m.height, c) &&
              coord.0 - vision <= c.0 <= coord.0 + vision && coord.1 - vision <= c.1 <= coord.1 + vision
  {
  }

  /** The first column of the box comes first, scanned top to bottom. */
  lemma ScopeColumnMajor(m: Maze, coord: Coord, vision: nat)
    requires 0 <= coord.0 - vision && coord.0 + vision < m.width
    requires 0 <= coord.1 - vision && coord.1 + vision < m.height
    ensures var r := GetScope(m, coord, vision, "box");
            |r| == (2 * vision + 1) * (2 * vision + 1) &&
            forall k :: 0 <= k <= 2 * vision ==> r[k] == (coord.0 - vision, coord.1 - vision + k)
  {
  }
}
