/**
 * `Maze.find_path` (maze.py): breadth-first search from the source over a grid of step numbers,
 * then a walk back from the destination along decreasing step numbers.
 *
 * The grid `map[y][x]` holds 0 for an unreached cell and k >= 1 for a cell first reached at step k
 * (the source is 1). Only interior cells (not on the outer border) that are not collision tiles
 * are ever reached; the source itself is marked whatever it is. The search expands one whole
 * frontier per round and stops as soon as the destination is marked.
 */
module PathFinding {
  import opened Wrappers
  import opened Tiles
  import opened Grid

  type Dist = seq<seq<int>>

  datatype PathResult = Found(path: seq<Coord>) | Unreachable | OffGrid

  /** The outcome of the search phase. */
  datatype Outcome = Reached(top: int) | Exhausted | Crashed

  predicate Ready(m: Maze)
  {
    m.width >= 1 && m.height >= 1 && Shaped(m.tiles, m.width, m.height)
  }

  predicate DistShaped(m: Maze, d: Dist)
  {
    |d| == m.height && forall y :: 0 <= y < m.height ==> |d[y]| == m.width
  }

  /** `map[c[1]][c[0]]`; the program only reads cells on the grid, and 0 stands in elsewhere. */
  function At(d: Dist, c: Coord): int
  {
    if 0 <= c.1 < |d| && 0 <= c.0 < |d[c.1]| then d[c.1][c.0] else 0
  }

  /** `map[c[1]][c[0]] = v`. */
  function Mark(d: Dist, c: Coord, v: int): (r: Dist)
    requires 0 <= c.1 < |d| && 0 <= c.0 < |d[c.1]|
    ensures |r| == |d| && forall y :: 0 <= y < |d| ==> |r[y]| == |d[y]|
    ensures At(r, c) == v
    ensures forall n :: n != c ==> At(r, n) == At(d, n)
  {
    d[c.1 := d[c.1][c.0 := v]]
  }

  /** The four cells `get_around` looks at, in its order. */
  function Left(c: Coord): Coord { (c.0 - 1, c.1) }
  function Right(c: Coord): Coord { (c.0 + 1, c.1) }
  function Up(c: Coord): Coord { (c.0, c.1 - 1) }
  function Down(c: Coord): Coord { (c.0, c.1 + 1) }

  /** `b` is a 4-neighbour of `a`. */
  predicate Adjacent(a: Coord, b: Coord)
  {
    b == Left(a) || b == Right(a) || b == Up(a) || b == Down(a)
  }

  /** The neighbours are exactly the cells `get_around` looks at, and being neighbours is symmetric. */
  lemma AdjacentIff(a: Coord, b: Coord)
    ensures Adjacent(a, b) <==> b in Candidates(a)
    ensures Adjacent(a, b) <==> Adjacent(b, a)
    ensures Adjacent(a, b) <==> (a.0 == b.0 && (a.1 - b.1 == 1 || b.1 - a.1 == 1)) || (a.1 == b.1 && (a.0 - b.0 == 1 || b.0 - a.0 == 1))
  {
  }

  predicate Collides(m: Maze, c: Coord)
  {
    0 <= c.1 < |m.tiles| && 0 <= c.0 < |m.tiles[c.1]| && m.tiles[c.1][c.0].collision
  }

  /** `0 < x < width - 1 and 0 < y < height - 1`. */
  predicate Interior(m: Maze, c: Coord)
  {
    0 < c.0 < m.width - 1 && 0 < c.1 < m.height - 1
  }

  /** A cell the search may step onto: interior and not a collision tile. */
  predicate Open(m: Maze, c: Coord)
  {
    Interior(m, c) && !Collides(m, c)
  }

  /** Every step goes to a 4-neighbour the search may step onto. */
  predicate Steps(m: Maze, p: seq<Coord>)
  {
    forall i :: 1 <= i < |p| ==> Adjacent(p[i - 1], p[i]) && Open(m, p[i])
  }

  /** A walk the search could take from `src`, counted in cells (the source included). */
  predicate IsWalk(m: Maze, q: seq<Coord>, src: Coord)
  {
    |q| >= 1 && q[0] == src && Steps(m, q)
  }

  function Last(q: seq<Coord>): Coord
    requires |q| >= 1
  {
    q[|q| - 1]
  }

  /** Neighbour `n` carries step `v` and is the source or a cell the search may step onto. */
  predicate Good(m: Maze, d: Dist, src: Coord, n: Coord, v: int)
  {
    InGrid(m.width, m.height, n) && At(d, n) == v && (n == src || Open(m, n))
  }

  /** One of the four neighbours of `c` carries the step before `c`'s. */
  predicate StepsDown(m: Maze, d: Dist, src: Coord, c: Coord)
  {
    var v := At(d, c) - 1;
    Good(m, d, src, Left(c), v) || Good(m, d, src, Right(c), v) || Good(m, d, src, Up(c), v) || Good(m, d, src, Down(c), v)
  }

  /** Neighbour `n` of `c`, if the search may step onto it, is marked no later than one step after `c`. */
  predicate Bounded(m: Maze, d: Dist, c: Coord, n: Coord)
  {
    !(InGrid(m.width, m.height, n) && Open(m, n)) || 1 <= At(d, n) <= At(d, c) + 1
  }

  /** `c` has been expanded: all its open neighbours are marked. */
  predicate Closed(m: Maze, d: Dist, c: Coord)
  {
    Bounded(m, d, c, Left(c)) && Bounded(m, d, c, Right(c)) && Bounded(m, d, c, Up(c)) && Bounded(m, d, c, Down(c))
  }

  /** Steps lie in [0, top]. */
  ghost predicate Capped(m: Maze, d: Dist, top: int)
  {
    forall c :: InGrid(m.width, m.height, c) ==> 0 <= At(d, c) <= top
  }

  /** Only the source has step 1; every other reached cell is open. */
  ghost predicate OnlyOpen(m: Maze, d: Dist, src: Coord)
  {
    forall c :: InGrid(m.width, m.height, c) && At(d, c) != 0 && c != src ==> At(d, c) >= 2 && Open(m, c)
  }

  /** Every cell of step 2 or more has a neighbour one step earlier. */
  ghost predicate Supported(m: Maze, d: Dist, src: Coord)
  {
    forall c {:trigger StepsDown(m, d, src, c)} :: InGrid(m.width, m.height, c) && At(d, c) >= 2 ==> StepsDown(m, d, src, c)
  }

  /** Every reached cell below step `below` is expanded. */
  ghost predicate Expanded(m: Maze, d: Dist, below: int)
  {
    forall c {:trigger Closed(m, d, c)} :: InGrid(m.width, m.height, c) && 1 <= At(d, c) < below ==> Closed(m, d, c)
  }

  /** The search invariant. */
  ghost predicate Inv(m: Maze, d: Dist, src: Coord, top: int, below: int)
  {
    Ready(m) && DistShaped(m, d) && InGrid(m.width, m.height, src) && At(d, src) == 1 &&
    Capped(m, d, top) && OnlyOpen(m, d, src) && Supported(m, d, src) && Expanded(m, d, below)
  }

  /** The frontier is exactly the cells of step `level`. */
  ghost predicate FrontierExact(m: Maze, d: Dist, frontier: seq<Coord>, level: int)
  {
    (forall f :: f in frontier ==> InGrid(m.width, m.height, f) && At(d, f) == level) &&
    (forall c :: InGrid(m.width, m.height, c) && At(d, c) == level ==> c in frontier)
  }

  ghost function Cells(m: Maze): set<Coord>
  {
    set x, y | 0 <= x < m.width && 0 <= y < m.height :: (x, y)
  }

  /** The cells the search has reached. */
  ghost function Marked(m: Maze, d: Dist): set<Coord>
    requires DistShaped(m, d)
  {
    set x, y | 0 <= x < m.width && 0 <= y < m.height && d[y][x] != 0 :: (x, y)
  }

  lemma MarkedIff(m: Maze, d: Dist)
    requires DistShaped(m, d)
    ensures forall c :: c in Cells(m) <==> InGrid(m.width, m.height, c)
    ensures forall c :: c in Marked(m, d) <==> InGrid(m.width, m.height, c) && At(d, c) != 0
  {
    forall c | InGrid(m.width, m.height, c) ensures c in Cells(m) {
      assert c == (c.0, c.1);
    }
    forall c | InGrid(m.width, m.height, c) && At(d, c) != 0 ensures c in Marked(m, d) {
      assert c == (c.0, c.1);
    }
  }

  /** From `d0` to `d` every cell keeps its step, except unreached ones that get step `v`. */
  ghost predicate Extends(m: Maze, d0: Dist, d: Dist, v: int)
  {
    forall c :: InGrid(m.width, m.height, c) ==> At(d, c) == At(d0, c) || (At(d0, c) == 0 && At(d, c) == v)
  }

  /** The neighbours of an open cell are all on the grid, so looking around it never raises. */
  lemma OpenAround(m: Maze, c: Coord)
    requires Ready(m) && Open(m, c)
    ensures Around(m, c, true).Some?
    ensures forall n :: Adjacent(c, n) ==> InGrid(m.width, m.height, n)
  {
  }

  /** Looking around a reached cell never raises once looking around the source does not. */
  lemma AroundSome(m: Maze, src: Coord, f: Coord)
    requires Ready(m) && Around(m, src, true).Some? && (f == src || Open(m, f))
    ensures Around(m, f, true).Some?
  {
    if f != src {
      OpenAround(m, f);
    }
  }

  /** `get_around` reports every neighbour on the grid that is not a collision tile. */
  lemma AroundComplete(m: Maze, c: Coord, n: Coord)
    requires Ready(m) && Around(m, c, true).Some?
    ensures Adjacent(c, n) && InGrid(m.width, m.height, n) && !Collides(m, n) ==> n in Around(m, c, true).value
  {
    AdjacentIff(c, n);
  }

  /** ... and only such neighbours. */
  lemma AroundSound(m: Maze, c: Coord)
    requires Ready(m) && Around(m, c, true).Some?
    ensures forall n :: n in Around(m, c, true).value ==> Adjacent(c, n) && (InGrid(m.width, m.height, n) ==> !Collides(m, n))
  {
    forall n | n in Around(m, c, true).value ensures Adjacent(c, n) {
      AdjacentIff(c, n);
    }
  }

  lemma InitInv(m: Maze, src: Coord)
    requires Ready(m) && InGrid(m.width, m.height, src)
    ensures var d := Mark(seq(m.height, y => seq(m.width, x => 0)), src, 1);
            Inv(m, d, src, 1, 1) && FrontierExact(m, d, [src], 1)
  {
  }

  lemma MarkKeepsClosed(m: Maze, d: Dist, u: Coord, v: int, c: Coord)
    requires DistShaped(m, d) && InGrid(m.width, m.height, u) && At(d, u) == 0
    requires InGrid(m.width, m.height, c) && At(d, c) >= 1 && Closed(m, d, c)
    ensures Closed(m, Mark(d, u, v), c)
  {
  }

  lemma MarkKeepsStepsDown(m: Maze, d: Dist, src: Coord, u: Coord, v: int, c: Coord)
    requires DistShaped(m, d) && InGrid(m.width, m.height, u) && At(d, u) == 0
    requires InGrid(m.width, m.height, c) && c != u && At(d, c) >= 2 && StepsDown(m, d, src, c)
    ensures StepsDown(m, Mark(d, u, v), src, c)
  {
  }

  /** Marking an unreached open neighbour of a level-`level` cell with the next step keeps the
      invariant, and cells already expanded stay expanded. */
  lemma MarkStep(m: Maze, d: Dist, src: Coord, level: int, f: Coord, u: Coord)
    requires Inv(m, d, src, level + 1, level) && level >= 1
    requires InGrid(m.width, m.height, f) && At(d, f) == level && (f == src || Open(m, f))
    requires Adjacent(f, u) && Open(m, u) && At(d, u) == 0
    ensures Inv(m, Mark(d, u, level + 1), src, level + 1, level)
    ensures Extends(m, d, Mark(d, u, level + 1), level + 1)
    ensures forall c :: InGrid(m.width, m.height, c) && At(d, c) >= 1 && Closed(m, d, c) ==>
              Closed(m, Mark(d, u, level + 1), c)
  {
    MarkSupported(m, d, src, level, f, u);
    MarkKeepsAllClosed(m, d, u, level + 1);
    MarkBounds(m, d, src, level, u);
    MarkExpanded(m, d, level, u);
  }

  lemma MarkBounds(m: Maze, d: Dist, src: Coord, level: int, u: Coord)
    requires DistShaped(m, d) && Capped(m, d, level + 1) && OnlyOpen(m, d, src) && level >= 1
    requires Open(m, u) && At(d, u) == 0
    ensures DistShaped(m, Mark(d, u, level + 1))
    ensures Capped(m, Mark(d, u, level + 1), level + 1) && OnlyOpen(m, Mark(d, u, level + 1), src)
    ensures Extends(m, d, Mark(d, u, level + 1), level + 1)
  {
  }

  lemma MarkExpanded(m: Maze, d: Dist, level: int, u: Coord)
    requires DistShaped(m, d) && Expanded(m, d, level) && InGrid(m.width, m.height, u) && At(d, u) == 0
    ensures Expanded(m, Mark(d, u, level + 1), level)
  {
    MarkKeepsAllClosed(m, d, u, level + 1);
  }

  lemma MarkKeepsAllClosed(m: Maze, d: Dist, u: Coord, v: int)
    requires DistShaped(m, d) && InGrid(m.width, m.height, u) && At(d, u) == 0
    ensures forall c :: InGrid(m.width, m.height, c) && At(d, c) >= 1 && Closed(m, d, c) ==> Closed(m, Mark(d, u, v), c)
  {
    forall c | InGrid(m.width, m.height, c) && At(d, c) >= 1 && Closed(m, d, c)
      ensures Closed(m, Mark(d, u, v), c)
    {
      MarkKeepsClosed(m, d, u, v, c);
    }
  }

  lemma MarkSupported(m: Maze, d: Dist, src: Coord, level: int, f: Coord, u: Coord)
    requires DistShaped(m, d) && Supported(m, d, src) && level >= 1
    requires InGrid(m.width, m.height, f) && At(d, f) == level && (f == src || Open(m, f))
    requires Adjacent(f, u) && InGrid(m.width, m.height, u) && At(d, u) == 0
    ensures Supported(m, Mark(d, u, level + 1), src)
  {
    var d' := Mark(d, u, level + 1);
    forall c | InGrid(m.width, m.height, c) && At(d', c) >= 2
      ensures StepsDown(m, d', src, c)
    {
      if c == u {
        MarkedNextToFrontier(m, d, src, level, f, u);
      } else {
        MarkKeepsStepsDown(m, d, src, u, level + 1, c);
      }
    }
  }

  /** The newly marked cell steps down to the frontier cell it was reached from. */
  lemma MarkedNextToFrontier(m: Maze, d: Dist, src: Coord, level: int, f: Coord, u: Coord)
    requires DistShaped(m, d)
    requires InGrid(m.width, m.height, f) && At(d, f) == level && (f == src || Open(m, f))
    requires Adjacent(f, u) && InGrid(m.width, m.height, u)
    ensures StepsDown(m, Mark(d, u, level + 1), src, u)
  {
    AdjacentIff(f, u);
    assert Good(m, Mark(d, u, level + 1), src, f, level);
  }

  /** Once every interior neighbour `get_around` reported is marked, the cell is expanded. */
  lemma ScanClosed(m: Maze, d: Dist, src: Coord, level: int, f: Coord)
    requires Inv(m, d, src, level + 1, level)
    requires InGrid(m.width, m.height, f) && At(d, f) == level && Around(m, f, true).Some?
    requires var cs := Around(m, f, true).value;
             forall q :: 0 <= q < |cs| && Interior(m, cs[q]) ==> At(d, cs[q]) != 0
    ensures Closed(m, d, f)
  {
    var cs := Around(m, f, true).value;
    forall n | Adjacent(f, n) && InGrid(m.width, m.height, n) && Open(m, n)
      ensures 1 <= At(d, n) <= level + 1
    {
      AroundComplete(m, f, n);
      var q :| 0 <= q < |cs| && cs[q] == n;
    }
  }

  /** After a whole round the cells of step `level` are expanded too. */
  lemma RoundDone(m: Maze, d: Dist, src: Coord, level: int, frontier: seq<Coord>)
    requires Inv(m, d, src, level + 1, level)
    requires forall c :: InGrid(m.width, m.height, c) && At(d, c) == level ==> c in frontier
    requires forall k :: 0 <= k < |frontier| ==> InGrid(m.width, m.height, frontier[k]) && Closed(m, d, frontier[k])
    ensures Inv(m, d, src, level + 1, level + 1)
  {
    forall c | InGrid(m.width, m.height, c) && 1 <= At(d, c) < level + 1
      ensures Closed(m, d, c)
    {
      if At(d, c) == level {
        var k :| 0 <= k < |frontier| && frontier[k] == c;
      }
    }
  }

  /** A round that marks nothing leaves the reached cells as they were; otherwise it reaches more. */
  lemma RoundProgress(m: Maze, d0: Dist, d: Dist, level: int, next: seq<Coord>)
    requires DistShaped(m, d0) && DistShaped(m, d)
    requires forall c :: InGrid(m.width, m.height, c) ==> At(d0, c) <= level
    requires Extends(m, d0, d, level + 1) && FrontierExact(m, d, next, level + 1)
    ensures next == [] ==> Marked(m, d) == Marked(m, d0)
    ensures next != [] ==> Cells(m) - Marked(m, d) < Cells(m) - Marked(m, d0)
  {
    MarkedIff(m, d0);
    MarkedIff(m, d);
    if next != [] {
      var c := next[0];
      assert c in Cells(m) - Marked(m, d0);
      assert c !in Cells(m) - Marked(m, d);
    }
  }

  /** One reported neighbour `c` of the frontier cell `f`: if it is interior and unreached, it gets
      `f`'s step plus one and joins the next frontier. */
  method Visit(m: Maze, d0: Dist, src: Coord, level: int, f: Coord, c: Coord, next0: seq<Coord>) returns (d: Dist, next: seq<Coord>)
    requires Inv(m, d0, src, level + 1, level) && FrontierExact(m, d0, next0, level + 1) && level >= 1
    requires InGrid(m.width, m.height, f) && At(d0, f) == level && (f == src || Open(m, f))
    requires Adjacent(f, c) && (InGrid(m.width, m.height, c) ==> !Collides(m, c))
    ensures Inv(m, d, src, level + 1, level) && FrontierExact(m, d, next, level + 1)
    ensures Extends(m, d0, d, level + 1) && At(d, f) == level
    ensures Interior(m, c) ==> At(d, c) != 0
    ensures forall x :: InGrid(m.width, m.height, x) && At(d0, x) >= 1 && Closed(m, d0, x) ==> Closed(m, d, x)
  {
    d, next := d0, next0;
    if Interior(m, c) && At(d, c) == 0 {
      MarkStep(m, d, src, level, f, c);
      d := Mark(d, c, At(d, f) + 1);
      next := next + [c];
    }
  }

  /** Visiting one more neighbour keeps what the scan has established so far. */
  lemma ScanStep(m: Maze, d0: Dist, d1: Dist, d2: Dist, cs: seq<Coord>, j: int, v: int)
    requires DistShaped(m, d0) && DistShaped(m, d1) && DistShaped(m, d2) && v != 0
    requires Extends(m, d0, d1, v) && Extends(m, d1, d2, v) && 0 <= j < |cs|
    requires forall q :: 0 <= q < j && Interior(m, cs[q]) ==> At(d1, cs[q]) != 0
    requires Interior(m, cs[j]) ==> At(d2, cs[j]) != 0
    requires forall x :: InGrid(m.width, m.height, x) && At(d0, x) >= 1 && Closed(m, d0, x) ==> Closed(m, d1, x)
    requires forall x :: InGrid(m.width, m.height, x) && At(d1, x) >= 1 && Closed(m, d1, x) ==> Closed(m, d2, x)
    ensures Extends(m, d0, d2, v)
    ensures forall q :: 0 <= q < j + 1 && Interior(m, cs[q]) ==> At(d2, cs[q]) != 0
    ensures forall x :: InGrid(m.width, m.height, x) && At(d0, x) >= 1 && Closed(m, d0, x) ==> Closed(m, d2, x)
  {
  }

  /** The inner loop of a round: looks around the frontier cell `f` and marks every interior,
      unreached cell it reports with `f`'s step plus one. */
  method Scan(m: Maze, d0: Dist, src: Coord, level: int, f: Coord, next0: seq<Coord>) returns (d: Dist, next: seq<Coord>)
    requires Inv(m, d0, src, level + 1, level) && FrontierExact(m, d0, next0, level + 1) && level >= 1
    requires InGrid(m.width, m.height, f) && At(d0, f) == level && (f == src || Open(m, f))
    requires Around(m, f, true).Some?
    ensures Inv(m, d, src, level + 1, level) && FrontierExact(m, d, next, level + 1)
    ensures Extends(m, d0, d, level + 1) && Closed(m, d, f)
    ensures forall c :: InGrid(m.width, m.height, c) && At(d0, c) >= 1 && Closed(m, d0, c) ==> Closed(m, d, c)
  {
    var cs := Around(m, f, true).value;
    AroundSound(m, f);
    d, next := d0, next0;
    var j := 0;
    while j < |cs|
      invariant 0 <= j <= |cs|
      invariant Inv(m, d, src, level + 1, level) && FrontierExact(m, d, next, level + 1)
      invariant Extends(m, d0, d, level + 1) && At(d, f) == level
      invariant forall q :: 0 <= q < j && Interior(m, cs[q]) ==> At(d, cs[q]) != 0
      invariant forall c :: InGrid(m.width, m.height, c) && At(d0, c) >= 1 && Closed(m, d0, c) ==> Closed(m, d, c)
    {
      ghost var d1 := d;
      d, next := Visit(m, d, src, level, f, cs[j], next);
      ScanStep(m, d0, d1, d, cs, j, level + 1);
      j := j + 1;
    }
    ScanClosed(m, d, src, level, f);
  }

  /** One round: every cell of the frontier is looked around in order; the newly marked cells,
      in the order they were marked, are the next frontier. */
  method Round(m: Maze, d0: Dist, src: Coord, level: int, frontier: seq<Coord>) returns (d: Dist, next: seq<Coord>)
    requires Inv(m, d0, src, level, level) && FrontierExact(m, d0, frontier, level) && level >= 1
    requires Around(m, src, true).Some?
    ensures Inv(m, d, src, level + 1, level + 1) && FrontierExact(m, d, next, level + 1)
    ensures Extends(m, d0, d, level + 1)
  {
    d, next := d0, [];
    var i := 0;
    while i < |frontier|
      invariant 0 <= i <= |frontier|
      invariant Inv(m, d, src, level + 1, level) && FrontierExact(m, d, next, level + 1)
      invariant Extends(m, d0, d, level + 1)
      invariant forall k :: 0 <= k < |frontier| ==> InGrid(m.width, m.height, frontier[k]) && At(d, frontier[k]) == level
      invariant forall k :: 0 <= k < i ==> Closed(m, d, frontier[k])
    {
      var f := frontier[i];
      AroundSome(m, src, f);
      ghost var d1 := d;
      d, next := Scan(m, d, src, level, f, next);
      KeepClosedPrefix(m, d1, d, frontier, i, level);
      i := i + 1;
    }
    RoundDone(m, d, src, level, frontier);
  }

  /** The frontier cells already looked around stay expanded while the next one is. */
  lemma KeepClosedPrefix(m: Maze, d: Dist, d': Dist, frontier: seq<Coord>, i: int, level: int)
    requires DistShaped(m, d) && DistShaped(m, d') && 0 <= i < |frontier| && level >= 1
    requires forall k :: 0 <= k < |frontier| ==> InGrid(m.width, m.height, frontier[k]) && At(d, frontier[k]) == level
    requires forall k :: 0 <= k < i ==> Closed(m, d, frontier[k])
    requires forall c :: InGrid(m.width, m.height, c) && At(d, c) >= 1 && Closed(m, d, c) ==> Closed(m, d', c)
    requires Closed(m, d', frontier[i])
    requires Extends(m, d, d', level + 1)
    ensures forall k :: 0 <= k < |frontier| ==> At(d', frontier[k]) == level
    ensures forall k :: 0 <= k < i + 1 ==> Closed(m, d', frontier[k])
  {
  }

  /** The search phase: rounds of expansion until the destination is marked. Where the frontier runs
      dry the program would go round forever; here that is `Exhausted`. The first round looks around
      the source, which raises for a source on the right or bottom edge: that is `Crashed`. */
  method Explore(m: Maze, src: Coord, dst: Coord) returns (d: Dist, outcome: Outcome)
    requires Ready(m) && InGrid(m.width, m.height, src) && InGrid(m.width, m.height, dst)
    ensures DistShaped(m, d)
    ensures outcome.Crashed? <==> src != dst && Around(m, src, true).None?
    ensures src == dst ==> outcome.Reached?
    ensures outcome.Reached? ==> At(d, dst) >= 1 && Inv(m, d, src, outcome.top, At(d, dst))
    ensures outcome.Exhausted? ==> src != dst && forall q :: IsWalk(m, q, src) ==> Last(q) != dst
  {
    d := Mark(seq(m.height, y => seq(m.width, x => 0)), src, 1);
    InitInv(m, src);
    if src != dst && Around(m, src, true).None? {
      return d, Crashed;
    }
    var frontier := [src];
    var level := 1;
    while At(d, dst) == 0
      invariant Inv(m, d, src, level, level) && FrontierExact(m, d, frontier, level)
      invariant src != dst ==> Around(m, src, true).Some?
      decreases Cells(m) - Marked(m, d), if frontier == [] then 0 else 1
    {
      if frontier == [] {
        NoWalkWhenExhausted(m, d, src, level, dst);
        return d, Exhausted;
      }
      var d1, next := Round(m, d, src, level, frontier);
      RoundProgress(m, d, d1, level, next);
      d, frontier, level := d1, next, level + 1;
    }
    outcome := Reached(level);
  }

  /** Along any walk from the source, the k-th cell is marked with a step of at most k + 1, as long as
      the cells before it are expanded. */
  lemma {:induction false} WalkBound(m: Maze, d: Dist, src: Coord, top: int, below: int, q: seq<Coord>, k: int)
    requires Inv(m, d, src, top, below) && IsWalk(m, q, src)
    requires 0 <= k < |q| && k < below
    ensures InGrid(m.width, m.height, q[k]) && 1 <= At(d, q[k]) <= k + 1
    decreases k
  {
    if k > 0 {
      WalkBound(m, d, src, top, below, q, k - 1);
      assert Adjacent(q[k - 1], q[k]) && Open(m, q[k]);
      assert Closed(m, d, q[k - 1]);
    }
  }

  /** When every marked cell is expanded, every walk from the source stays on marked cells. */
  lemma {:induction false} WalkMarked(m: Maze, d: Dist, src: Coord, top: int, q: seq<Coord>, k: int)
    requires Inv(m, d, src, top, top + 1) && IsWalk(m, q, src)
    requires 0 <= k < |q|
    ensures InGrid(m.width, m.height, q[k]) && At(d, q[k]) >= 1
    decreases k
  {
    if k > 0 {
      WalkMarked(m, d, src, top, q, k - 1);
      assert Adjacent(q[k - 1], q[k]) && Open(m, q[k]);
      assert Closed(m, d, q[k - 1]);
    }
  }

  /** An empty frontier with the destination unreached: no walk from the source gets there. */
  lemma NoWalkWhenExhausted(m: Maze, d: Dist, src: Coord, level: int, dst: Coord)
    requires Inv(m, d, src, level, level) && FrontierExact(m, d, [], level)
    requires InGrid(m.width, m.height, dst) && At(d, dst) == 0
    ensures src != dst && forall q :: IsWalk(m, q, src) ==> Last(q) != dst
  {
    assert Inv(m, d, src, level - 1, level);
    forall q | IsWalk(m, q, src) ensures Last(q) != dst {
      WalkMarked(m, d, src, level - 1, q, |q| - 1);
    }
  }

  /** No walk from the source reaches the destination in fewer cells than its step number. */
  lemma WalkLowerBound(m: Maze, d: Dist, src: Coord, top: int, dst: Coord, q: seq<Coord>)
    requires DistShaped(m, d) && InGrid(m.width, m.height, dst) && At(d, dst) >= 1
    requires Inv(m, d, src, top, At(d, dst)) && IsWalk(m, q, src) && Last(q) == dst
    ensures |q| >= At(d, dst)
  {
    var v := At(d, dst);
    var k := (if |q| < v then |q| else v) - 1;
    WalkBound(m, d, src, top, v, q, k);
  }

  /** `for c in get_around(...): if map[c[1]][c[0]] == v: ... break`. */
  function FirstWithStep(m: Maze, d: Dist, cs: seq<Coord>, v: int): (r: Option<Coord>)
    requires DistShaped(m, d) && forall c :: c in cs ==> InGrid(m.width, m.height, c)
    ensures r.Some? ==> r.value in cs && At(d, r.value) == v
    ensures r.None? ==> forall c :: c in cs ==> At(d, c) != v
  {
    if cs == [] then None
    else if At(d, cs[0]) == v then Some(cs[0])
    else FirstWithStep(m, d, cs[1..], v)
  }

  function Reverse(s: seq<Coord>): (r: seq<Coord>)
    ensures |r| == |s| && forall i :: 0 <= i < |s| ==> r[i] == s[|s| - 1 - i]
  {
    if s == [] then [] else Reverse(s[1..]) + [s[0]]
  }

  /** The cells found walking back from the destination: the k-th has step v - k, and each lies
      next to the one before it, which is open; all but the first are free of collision. */
  ghost predicate BackChain(m: Maze, d: Dist, v: int, back: seq<Coord>)
    requires DistShaped(m, d)
  {
    (forall k :: 0 <= k < |back| ==> InGrid(m.width, m.height, back[k]) && At(d, back[k]) == v - k) &&
    (forall k :: 1 <= k < |back| ==> Link(m, back[k - 1], back[k]))
  }

  /** `b` was found looking around `a`: a free neighbour of the open cell `a`. */
  predicate Link(m: Maze, a: Coord, b: Coord)
  {
    Adjacent(b, a) && Open(m, a) && InGrid(m.width, m.height, b) && !Collides(m, b)
  }

  lemma ReverseSteps(m: Maze, d: Dist, v: int, back: seq<Coord>)
    requires DistShaped(m, d) && BackChain(m, d, v, back)
    ensures Steps(m, Reverse(back))
  {
    var p := Reverse(back);
    var n := |back|;
    forall i | 1 <= i < |p| ensures Adjacent(p[i - 1], p[i]) && Open(m, p[i]) {
      var k := n - i;
      assert p[i - 1] == back[k] && p[i] == back[k - 1];
    }
  }

  /** The walk back: from the destination, repeatedly to the first reported neighbour one step
      earlier, then reversed. A collision source is never reported, so the walk then stops one
      cell short of it. */
  method WalkBack(m: Maze, d: Dist, src: Coord, dst: Coord, top: int) returns (p: seq<Coord>)
    requires DistShaped(m, d) && InGrid(m.width, m.height, dst) && At(d, dst) >= 1
    requires Inv(m, d, src, top, At(d, dst))
    ensures |p| >= 1 && Last(p) == dst && Steps(m, p)
    ensures !Collides(m, src) ==> |p| == At(d, dst) && p[0] == src
    ensures Collides(m, src) && src != dst ==> |p| == At(d, dst) - 1 && Adjacent(src, p[0])
    ensures src == dst ==> p == [dst]
  {
    var v := At(d, dst);
    var back := [dst];
    var step := v;
    ghost var short := false;
    while step > 1
      invariant 1 <= step <= v
      invariant |back| >= 1 && back[0] == dst && BackChain(m, d, v, back)
      invariant !short ==> |back| == v - step + 1
      invariant short ==> step == 1 && |back| == v - 1 && Collides(m, src) && src != dst
    {
      var last := back[|back| - 1];
      LastIsOpen(m, d, src, top, v, back);
      OpenAround(m, last);
      var cs := Around(m, last, true).value;
      AroundSound(m, last);
      var found := FirstWithStep(m, d, cs, step - 1);
      if found.Some? {
        BackChainExtend(m, d, v, back, found.value);
        back := back + [found.value];
      } else {
        NothingFound(m, d, src, top, v, last, step);
        short := true;
      }
      step := step - 1;
    }
    p := Reverse(back);
    ReverseSteps(m, d, v, back);
    if !short {
      BackReachesSource(m, d, src, top, v, back);
    }
    if Collides(m, src) && src != dst && |back| == v - 1 {
      StepTwoTouchesSource(m, d, src, top, v, back[|back| - 1]);
    }
  }

  /** The last cell found, when its step is 2 or more, is open. */
  lemma LastIsOpen(m: Maze, d: Dist, src: Coord, top: int, v: int, back: seq<Coord>)
    requires Inv(m, d, src, top, v) && BackChain(m, d, v, back) && 1 <= |back| < v
    ensures Open(m, back[|back| - 1]) && At(d, back[|back| - 1]) == v - |back| + 1
  {
  }

  /** A free neighbour of the last cell, one step earlier, extends the chain. */
  lemma BackChainExtend(m: Maze, d: Dist, v: int, back: seq<Coord>, c: Coord)
    requires DistShaped(m, d) && BackChain(m, d, v, back) && |back| >= 1
    requires Open(m, back[|back| - 1]) && Adjacent(back[|back| - 1], c)
    requires InGrid(m.width, m.height, c) && !Collides(m, c) && At(d, c) == v - |back|
    ensures BackChain(m, d, v, back + [c])
  {
    AdjacentIff(back[|back| - 1], c);
    var b := back + [c];
    assert Link(m, b[|back| - 1], b[|back|]);
    assert forall k :: 0 <= k < |back| ==> b[k] == back[k];
  }

  /** A walk back of full length ends at the source, which then is free of collision unless it is
      the destination itself. */
  lemma BackReachesSource(m: Maze, d: Dist, src: Coord, top: int, v: int, back: seq<Coord>)
    requires Inv(m, d, src, top, v) && BackChain(m, d, v, back) && |back| == v && v >= 1
    ensures back[v - 1] == src
    ensures v >= 2 ==> !Collides(m, src)
  {
    if v >= 2 {
      assert Link(m, back[v - 2], back[v - 1]);
    }
  }

  /** The only time the walk back finds no earlier neighbour is at step 2 with a collision source. */
  lemma NothingFound(m: Maze, d: Dist, src: Coord, top: int, v: int, last: Coord, step: int)
    requires Inv(m, d, src, top, v)
    requires InGrid(m.width, m.height, last) && At(d, last) == step && step >= 2
    requires Around(m, last, true).Some?
    requires forall c :: c in Around(m, last, true).value && InGrid(m.width, m.height, c) ==> At(d, c) != step - 1
    ensures step == 2 && Collides(m, src) && last != src
  {
    assert StepsDown(m, d, src, last);
    var n := if Good(m, d, src, Left(last), step - 1) then Left(last) else if Good(m, d, src, Right(last), step - 1) then Right(last)
             else if Good(m, d, src, Up(last), step - 1) then Up(last) else Down(last);
    assert Good(m, d, src, n, step - 1);
    AroundComplete(m, last, n);
  }

  /** A cell of step 2 lies next to the source. */
  lemma StepTwoTouchesSource(m: Maze, d: Dist, src: Coord, top: int, v: int, c: Coord)
    requires Inv(m, d, src, top, v) && InGrid(m.width, m.height, c) && At(d, c) == 2
    ensures Adjacent(src, c)
  {
    assert StepsDown(m, d, src, c);
    var n := if Good(m, d, src, Left(c), 1) then Left(c) else if Good(m, d, src, Right(c), 1) then Right(c)
             else if Good(m, d, src, Up(c), 1) then Up(c) else Down(c);
    assert Good(m, d, src, n, 1);
    AdjacentIff(c, src);
  }

  /** `find_path(src, dst)`: a shortest walk from `src` to `dst`, as a list of cells. */
  method FindPath(m: Maze, src: Coord, dst: Coord) returns (r: PathResult)
    requires Ready(m) && InGrid(m.width, m.height, src) && InGrid(m.width, m.height, dst)
    ensures r.OffGrid? <==> src != dst && Around(m, src, true).None?
    ensures src == dst ==> r == Found([dst])
    ensures r.Unreachable? ==> forall q :: IsWalk(m, q, src) ==> Last(q) != dst
    ensures r.Found? ==> |r.path| >= 1 && Last(r.path) == dst && Steps(m, r.path)
    ensures r.Found? && !Collides(m, src) ==>
              IsWalk(m, r.path, src) && forall q :: IsWalk(m, q, src) && Last(q) == dst ==> |r.path| <= |q|
    ensures r.Found? && Collides(m, src) && src != dst ==>
              Adjacent(src, r.path[0]) && forall q :: IsWalk(m, q, src) && Last(q) == dst ==> |r.path| < |q|
  {
    var d, outcome := Explore(m, src, dst);
    match outcome
    case Crashed =>
      r := OffGrid;
    case Exhausted =>
      r := Unreachable;
    case Reached(top) =>
      var p := WalkBack(m, d, src, dst, top);
      forall q | IsWalk(m, q, src) && Last(q) == dst ensures |q| >= At(d, dst) {
        WalkLowerBound(m, d, src, top, dst, q);
      }
      r := Found(p);
  }
}
