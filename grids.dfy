/** Value model of a game board: coordinates, cell values, 8-way
    reachability through open cells, and walls.  The generator's contracts
    are stated in these terms. */
module Grids {

  /** A board coordinate (the source's IntVector2). */
  datatype Coord = Coord(x: int, y: int)

  /** Cell values indexed g[x][y]: 0 is open, a positive value is built,
      -1 is the transient mark of a connectivity sweep. */
  type Grid = seq<seq<int>>

  predicate InBounds(g: Grid, c: Coord) {
    0 <= c.x < |g| && 0 <= c.y < |g[c.x]|
  }

  predicate Open(g: Grid, c: Coord) {
    InBounds(g, c) && g[c.x][c.y] == 0
  }

  /** c lies in the 3x3 block centred on a; a itself is included. */
  predicate Near(a: Coord, c: Coord) {
    -1 <= c.x - a.x <= 1 && -1 <= c.y - a.y <= 1
  }

  /** Strict row-major order: by x first, then by y. */
  predicate Before(a: Coord, b: Coord) {
    a.x < b.x || (a.x == b.x && a.y < b.y)
  }

  predicate Distinct(s: seq<Coord>) {
    forall k, l :: 0 <= k < l < |s| ==> s[k] != s[l]
  }

  predicate RowMajor(s: seq<Coord>) {
    forall k, l :: 0 <= k < l < |s| ==> Before(s[k], s[l])
  }

  /** No cell holds a mark or any other negative value. */
  ghost predicate NoMarks(g: Grid) {
    forall c :: InBounds(g, c) ==> g[c.x][c.y] >= 0
  }

  /** The grid with cell c overwritten by v. */
  function Set(g: Grid, c: Coord, v: int): (r: Grid)
    requires InBounds(g, c)
    ensures |r| == |g| && forall i :: 0 <= i < |g| ==> |r[i]| == |g[i]|
    ensures forall d :: InBounds(g, d) ==> r[d.x][d.y] == if d == c then v else g[d.x][d.y]
  {
    g[c.x := g[c.x][c.y := v]]
  }

  /** Writing a value that is not negative keeps a grid free of marks. */
  lemma SetKeepsNoMarks(g: Grid, c: Coord, v: int)
    requires InBounds(g, c) && NoMarks(g) && v >= 0
    ensures NoMarks(Set(g, c, v))
  {
  }

  /** Writing a cell and then its old value back gives the grid back. */
  lemma SetBack(g: Grid, c: Coord, v: int)
    requires InBounds(g, c)
    ensures Set(Set(g, c, v), c, g[c.x][c.y]) == g
  {
    assert g[c.x][c.y := v][c.y := g[c.x][c.y]] == g[c.x];
  }

  /** The cell values of a board array. */
  ghost function Snapshot(a: array2<int>): (g: Grid)
    reads a
    ensures |g| == a.Length0
    ensures forall i :: 0 <= i < a.Length0 ==> |g[i]| == a.Length1
    ensures forall i, j :: 0 <= i < a.Length0 && 0 <= j < a.Length1 ==> g[i][j] == a[i, j]
  {
    seq(a.Length0, i requires 0 <= i < a.Length0 reads a =>
      seq(a.Length1, j requires 0 <= j < a.Length1 reads a => a[i, j]))
  }

  /** Two grids with the same shape and the same cells are equal. */
  lemma GridExt(g: Grid, h: Grid)
    requires |g| == |h| && forall i :: 0 <= i < |g| ==> |g[i]| == |h[i]|
    requires forall c :: InBounds(g, c) ==> g[c.x][c.y] == h[c.x][c.y]
    ensures g == h
  {
    forall i | 0 <= i < |g|
      ensures g[i] == h[i]
    {
      forall j | 0 <= j < |g[i]|
        ensures g[i][j] == h[i][j]
      {
        assert InBounds(g, Coord(i, j));
      }
    }
  }

  /** A walk that starts at an in-bounds cell and then moves between
      8-adjacent cells, each of them open. */
  ghost predicate IsPath(g: Grid, p: seq<Coord>) {
    |p| > 0 && InBounds(g, p[0]) &&
    (forall k :: 0 < k < |p| ==> Open(g, p[k])) &&
    (forall k :: 0 <= k < |p| - 1 ==> Near(p[k], p[k + 1]))
  }

  /** b is reached from a by a walk through open cells (a itself may be of
      any value: the flood fill starts from the root whatever it holds). */
  ghost predicate Reach(g: Grid, a: Coord, b: Coord) {
    exists p :: IsPath(g, p) && p[0] == a && p[|p| - 1] == b
  }

  /** The open cells form one 8-connected component, or there are none. */
  ghost predicate Connected(g: Grid) {
    forall a, b :: Open(g, a) && Open(g, b) ==> Reach(g, a, b)
  }

  /** No cell outside s is an open 8-neighbour of a cell in s. */
  ghost predicate Closed(g: Grid, s: set<Coord>) {
    forall c, n :: c in s && Near(c, n) && Open(g, n) ==> n in s
  }

  /** c is open and no open cell precedes it in row-major order. */
  ghost predicate FirstOpen(g: Grid, c: Coord) {
    Open(g, c) && forall d :: Open(g, d) ==> !Before(d, c)
  }

  ghost function OpenCells(g: Grid): (s: set<Coord>)
    ensures forall c :: c in s <==> Open(g, c)
  {
    set i, j | 0 <= i < |g| && 0 <= j < |g[i]| && g[i][j] == 0 :: Coord(i, j)
  }

  /** A wall of the given length: distinct open cells, each 8-adjacent to
      the next, starting at wall[0]. */
  ghost predicate IsWall(g: Grid, depth: int, wall: seq<Coord>) {
    |wall| == depth && depth >= 1 && Distinct(wall) &&
    (forall k :: 0 <= k < |wall| ==> Open(g, wall[k])) &&
    (forall k :: 0 <= k < |wall| - 1 ==> Near(wall[k], wall[k + 1]))
  }

  /** A wall of `depth` cells can be grown from parent one cell at a time,
      each built cell keeping the open cells connected: parent is open,
      building it keeps the board connected, and unless it is the last
      cell, a wall one shorter can be grown from an open neighbour on the
      board with parent built. */
  ghost predicate Growable(g: Grid, parent: Coord, depth: int)
    decreases depth, 1
  {
    depth >= 1 && Open(g, parent) && Connected(Set(g, parent, 1)) &&
    (depth == 1 || GrowsNext(Set(g, parent, 1), parent, depth - 1))
  }

  /** Some open neighbour of parent on g1 grows a wall of length d. */
  ghost predicate GrowsNext(g1: Grid, parent: Coord, d: int)
    decreases d + 1, 0
  {
    d >= 1 && exists n :: Near(parent, n) && Open(g1, n) && Growable(g1, n, d)
  }

  /** h is g with every cell of the wall built. */
  ghost predicate WallBuilt(g: Grid, wall: seq<Coord>, h: Grid) {
    |h| == |g| && (forall i :: 0 <= i < |g| ==> |h[i]| == |g[i]|) &&
    forall c :: InBounds(g, c) ==> h[c.x][c.y] == if c in wall then 1 else g[c.x][c.y]
  }

  // ---------------------------------------------------------------------
  // Reachability

  lemma ReachSelf(g: Grid, a: Coord)
    requires InBounds(g, a)
    ensures Reach(g, a, a)
  {
    assert IsPath(g, [a]);
  }

  /** A reached cell is in bounds, and open unless it is the start. */
  lemma ReachEnd(g: Grid, a: Coord, b: Coord)
    requires Reach(g, a, b)
    ensures InBounds(g, a) && InBounds(g, b)
    ensures b != a ==> Open(g, b)
  {
    var p :| IsPath(g, p) && p[0] == a && p[|p| - 1] == b;
    if |p| > 1 {
      assert Open(g, p[|p| - 1]);
    }
  }

  lemma ReachExtend(g: Grid, a: Coord, b: Coord, c: Coord)
    requires Reach(g, a, b) && Near(b, c) && Open(g, c)
    ensures Reach(g, a, c)
  {
    var p :| IsPath(g, p) && p[0] == a && p[|p| - 1] == b;
    var q := p + [c];
    assert IsPath(g, q);
  }

  lemma ReachPrepend(g: Grid, a: Coord, n: Coord, b: Coord)
    requires InBounds(g, a) && Near(a, n) && Open(g, n) && Reach(g, n, b)
    ensures Reach(g, a, b)
  {
    var p :| IsPath(g, p) && p[0] == n && p[|p| - 1] == b;
    var q := [a] + p;
    assert q[1..] == p;
    assert IsPath(g, q);
  }

  /** Between open cells reachability is symmetric. */
  lemma ReachSymmetric(g: Grid, a: Coord, b: Coord)
    requires Open(g, a) && Reach(g, a, b)
    ensures Reach(g, b, a)
  {
    var p :| IsPath(g, p) && p[0] == a && p[|p| - 1] == b;
    var n := |p|;
    var q := seq(n, k requires 0 <= k < n => p[n - 1 - k]);
    forall k | 0 < k < n
      ensures Open(g, q[k])
    {
      if n - 1 - k > 0 {
        assert Open(g, p[n - 1 - k]);
      }
    }
    forall k | 0 <= k < n - 1
      ensures Near(q[k], q[k + 1])
    {
      assert Near(p[n - 2 - k], p[n - 1 - k]);
    }
    ReachEnd(g, a, b);
    assert IsPath(g, q);
  }

  lemma ReachTransitive(g: Grid, a: Coord, b: Coord, c: Coord)
    requires Reach(g, a, b) && Reach(g, b, c)
    ensures Reach(g, a, c)
  {
    var p :| IsPath(g, p) && p[0] == a && p[|p| - 1] == b;
    var q :| IsPath(g, q) && q[0] == b && q[|q| - 1] == c;
    var r := p + q[1..];
    forall k | 0 <= k < |r| - 1
      ensures Near(r[k], r[k + 1])
    {
      if k < |p| - 1 {
        assert Near(p[k], p[k + 1]);
      } else {
        assert Near(q[k - |p| + 1], q[k - |p| + 2]);
      }
    }
    assert IsPath(g, r);
  }

  /** A set that holds the start and is closed under open 8-neighbours holds
      every cell reached from the start. */
  lemma {:induction false} ClosedHoldsReach(g: Grid, s: set<Coord>, p: seq<Coord>)
    requires Closed(g, s) && IsPath(g, p) && p[0] in s
    ensures p[|p| - 1] in s
    decreases |p|
  {
    if |p| > 1 {
      var q := p[..|p| - 1];
      assert IsPath(g, q);
      ClosedHoldsReach(g, s, q);
      assert Near(p[|p| - 2], p[|p| - 1]);
    }
  }

  /** What the breadth-first flood from root keeps true of the marked cells
      and the queue: every marked cell is reached from the root, every
      queued cell is marked, and a marked cell that has left the queue has
      all its open neighbours marked. */
  ghost predicate FloodInv(g: Grid, root: Coord, marked: set<Coord>, queue: seq<Coord>) {
    root in marked &&
    (forall c :: c in marked ==> Reach(g, root, c)) &&
    (forall c :: c in queue ==> c in marked) &&
    (forall c, n :: c in marked && c !in queue && Near(c, n) && Open(g, n) ==> n in marked)
  }

  /** One round of the flood: the head of the queue is taken off and its
      open unmarked neighbours are marked and queued.  The invariant is
      kept, and either fewer open cells are left unmarked or the queue is
      shorter. */
  lemma FloodStep(g: Grid, root: Coord, marked0: set<Coord>, queue0: seq<Coord>, neighbors: seq<Coord>,
                  marked: set<Coord>, queue: seq<Coord>)
    requires FloodInv(g, root, marked0, queue0) && |queue0| > 0
    requires forall c :: c in neighbors <==> Near(queue0[0], c) && Open(g, c) && c !in marked0
    requires marked == marked0 + set c | c in neighbors
    requires queue == queue0[1..] + neighbors
    ensures FloodInv(g, root, marked, queue)
    ensures OpenCells(g) - marked < OpenCells(g) - marked0 || (marked == marked0 && |queue| < |queue0|)
  {
    var cur := queue0[0];
    forall n | n in neighbors
      ensures Reach(g, root, n)
    {
      ReachExtend(g, root, cur, n);
    }
    forall c | c in queue
      ensures c in marked
    {
      if c !in neighbors {
        assert c in queue0[1..];
      }
    }
    forall c, n | c in marked && c !in queue && Near(c, n) && Open(g, n)
      ensures n in marked
    {
      if c == cur {
        assert n in marked0 || n in neighbors;
      } else {
        assert queue0 == [cur] + queue0[1..];
      }
    }
    if |neighbors| > 0 {
      assert neighbors[0] in (OpenCells(g) - marked0) - (OpenCells(g) - marked);
    } else {
      assert marked == marked0;
    }
  }

  /** When the queue is empty, the marked cells are exactly those reached
      from the root. */
  lemma FloodDone(g: Grid, root: Coord, marked: set<Coord>)
    requires FloodInv(g, root, marked, [])
    ensures forall c :: c in marked <==> Reach(g, root, c)
    ensures marked == Reached(g, root)
  {
    forall c | Reach(g, root, c)
      ensures c in marked
    {
      var p :| IsPath(g, p) && p[0] == root && p[|p| - 1] == c;
      ClosedHoldsReach(g, marked, p);
    }
    forall c | c in marked
      ensures InBounds(g, c)
    {
      ReachEnd(g, root, c);
    }
  }

  /** With an open root, the open cells are connected exactly when every
      open cell is reached from the root. */
  lemma ConnectedFromRoot(g: Grid, r: Coord)
    requires Open(g, r)
    ensures Connected(g) <==> forall c :: Open(g, c) ==> Reach(g, r, c)
  {
    if forall c :: Open(g, c) ==> Reach(g, r, c) {
      forall a, b | Open(g, a) && Open(g, b)
        ensures Reach(g, a, b)
      {
        ReachSymmetric(g, r, a);
        ReachTransitive(g, a, r, b);
      }
    }
  }

  /** The cells reached from r. */
  ghost function Reached(g: Grid, r: Coord): (s: set<Coord>)
    ensures forall c :: c in s <==> InBounds(g, c) && Reach(g, r, c)
  {
    set i, j | 0 <= i < |g| && 0 <= j < |g[i]| && Reach(g, r, Coord(i, j)) :: Coord(i, j)
  }

  /** From an open root only open cells are reached. */
  lemma ReachedOpen(g: Grid, r: Coord)
    requires Open(g, r)
    ensures forall c :: c in Reached(g, r) ==> Open(g, c)
  {
    forall c | c in Reached(g, r)
      ensures Open(g, c)
    {
      ReachEnd(g, r, c);
    }
  }

  /** A board without open cells counts as connected. */
  lemma NoOpenConnected(g: Grid)
    requires forall c :: !Open(g, c)
    ensures Connected(g)
  {
  }

  // ---------------------------------------------------------------------
  // Walls and open counts

  /** Swapping two positions keeps the elements and their distinctness. */
  lemma SwapKeeps(s: seq<Coord>, i: int, r: int)
    requires 0 <= i < |s| && 0 <= r < |s|
    ensures multiset(s[i := s[r]][r := s[i]]) == multiset(s)
    ensures Distinct(s) ==> Distinct(s[i := s[r]][r := s[i]])
  {
    var t := s[i := s[r]][r := s[i]];
    if Distinct(s) {
      forall k, l | 0 <= k < l < |t|
        ensures t[k] != t[l]
      {
        var k' := if k == i then r else if k == r then i else k;
        var l' := if l == i then r else if l == r then i else l;
        assert t[k] == s[k'] && t[l] == s[l'];
      }
    }
  }

  lemma {:induction false} DistinctCard(s: seq<Coord>)
    requires Distinct(s)
    ensures |set c | c in s| == |s|
  {
    if s != [] {
      var t := s[1..];
      assert Distinct(t);
      DistinctCard(t);
      assert (set c | c in s) == {s[0]} + (set c | c in t);
      assert s[0] !in (set c | c in t);
    }
  }

  /** In a list in x-then-y order, exactly k listed cells come before the
      k-th one. */
  lemma RowMajorRank(s: seq<Coord>, k: int)
    requires RowMajor(s) && 0 <= k < |s|
    ensures |set c | c in s && Before(c, s[k])| == k
  {
    forall c | c in s && Before(c, s[k])
      ensures c in s[..k]
    {
      var l :| 0 <= l < |s| && s[l] == c;
      assert l < k;
    }
    assert (set c | c in s && Before(c, s[k])) == set c | c in s[..k];
    assert Distinct(s[..k]);
    DistinctCard(s[..k]);
  }

  /** Building a wall removes exactly its cells from the open cells, so the
      open count drops by the wall's length. */
  lemma WallOpenCount(g: Grid, depth: int, wall: seq<Coord>, h: Grid)
    requires IsWall(g, depth, wall) && WallBuilt(g, wall, h)
    ensures OpenCells(h) == OpenCells(g) - set c | c in wall
    ensures |OpenCells(h)| == |OpenCells(g)| - depth
  {
    var w := set c | c in wall;
    forall c
      ensures c in OpenCells(h) <==> c in OpenCells(g) - w
    {
      if InBounds(g, c) {
        assert InBounds(h, c);
      }
    }
    assert OpenCells(h) == OpenCells(g) - w;
    assert w <= OpenCells(g);
    DistinctCard(wall);
  }

  /** A wall never needs more cells than the board has open ones: asking for
      a longer wall can only fail. */
  lemma WallFitsOpen(g: Grid, depth: int, wall: seq<Coord>)
    requires IsWall(g, depth, wall)
    ensures depth <= |OpenCells(g)|
  {
    var w := set c | c in wall;
    assert w <= OpenCells(g);
    assert OpenCells(g) == w + (OpenCells(g) - w);
    DistinctCard(wall);
  }

  /** Extending a wall built on g-with-parent-built by the parent in front
      gives a wall on g. */
  lemma WallExtend(g: Grid, parent: Coord, wall: seq<Coord>, depth: int)
    requires Open(g, parent)
    requires IsWall(Set(g, parent, 1), depth, wall) && Near(parent, wall[0])
    ensures IsWall(g, depth + 1, [parent] + wall)
  {
    var g1 := Set(g, parent, 1);
    var w := [parent] + wall;
    forall k | 0 <= k < |wall|
      ensures Open(g, wall[k]) && wall[k] != parent
    {
      assert Open(g1, wall[k]);
    }
    forall k, l | 0 <= k < l < |w|
      ensures w[k] != w[l]
    {
      if k > 0 {
        assert w[k] == wall[k - 1] && w[l] == wall[l - 1];
      } else {
        assert w[l] == wall[l - 1];
      }
    }
    forall k | 0 <= k < |w| - 1
      ensures Near(w[k], w[k + 1])
    {
      if k > 0 {
        assert Near(wall[k - 1], wall[k]);
      }
    }
  }

  /** The generator's wall with the parent in front, as built on the board. */
  lemma WallBuiltExtend(g: Grid, parent: Coord, wall: seq<Coord>, h: Grid)
    requires InBounds(g, parent)
    requires WallBuilt(Set(g, parent, 1), wall, h)
    ensures WallBuilt(g, [parent] + wall, h)
  {
  }

  /** A one-cell wall: building an open cell. */
  lemma WallStart(g: Grid, parent: Coord, h: Grid)
    requires Open(g, parent) && h == Set(g, parent, 1)
    ensures IsWall(g, 1, [parent]) && WallBuilt(g, [parent], h)
    ensures |OpenCells(h)| == |OpenCells(g)| - 1
  {
    WallOpenCount(g, 1, [parent], h);
  }

  /** A wall of d = depth - 1 cells found from a neighbour of the built
      parent gives, with the parent in front, a wall of depth cells on the
      board before. */
  lemma WallStep(g: Grid, parent: Coord, g1: Grid, wall: seq<Coord>, d: int, depth: int, h: Grid)
    requires Open(g, parent) && g1 == Set(g, parent, 1) && d == depth - 1
    requires IsWall(g1, d, wall) && WallBuilt(g1, wall, h)
    requires Near(parent, wall[0])
    ensures IsWall(g, depth, [parent] + wall) && WallBuilt(g, [parent] + wall, h)
    ensures |OpenCells(h)| == |OpenCells(g)| - depth
  {
    WallExtend(g, parent, wall, d);
    WallBuiltExtend(g, parent, wall, h);
    WallOpenCount(g, depth, [parent] + wall, h);
  }

  /** No wall grows from a cell that is built, or whose building would
      disconnect the board, and none of fewer than one cell. */
  lemma NotGrowable(g: Grid, parent: Coord, depth: int)
    requires InBounds(g, parent)
    requires depth < 1 || !Open(g, parent) || !Connected(Set(g, parent, 1))
    ensures !Growable(g, parent, depth)
  {
  }

  /** The last cell of a wall grows when building it keeps g connected. */
  lemma GrowsAlone(g: Grid, parent: Coord)
    requires Open(g, parent) && Connected(Set(g, parent, 1))
    ensures Growable(g, parent, 1)
  {
  }

  /** A shorter wall grown from an open neighbour of the built parent
      extends to a wall grown from parent. */
  lemma GrowsFromNeighbour(g: Grid, parent: Coord, g1: Grid, n: Coord, d: int, depth: int)
    requires Open(g, parent) && g1 == Set(g, parent, 1) && Connected(g1) && d >= 1 && d == depth - 1
    requires Near(parent, n) && Open(g1, n) && Growable(g1, n, d)
    ensures Growable(g, parent, depth)
  {
    assert GrowsNext(g1, parent, d);
  }

  /** When no listed neighbour grows a shorter wall and the list holds
      every open neighbour of the built parent, no wall grows from parent. */
  lemma NoNeighbourGrows(g: Grid, parent: Coord, g1: Grid, d: int, depth: int, neighbors: seq<Coord>)
    requires Open(g, parent) && g1 == Set(g, parent, 1) && d >= 1 && d == depth - 1
    requires forall c :: c in neighbors <==> Near(parent, c) && Open(g1, c)
    requires NoneGrows(g1, neighbors, d)
    ensures !Growable(g, parent, depth)
  {
    forall n | Near(parent, n) && Open(g1, n)
      ensures !Growable(g1, n, d)
    {
      var k :| 0 <= k < |neighbors| && neighbors[k] == n;
    }
    assert !GrowsNext(g1, parent, d);
  }

  /** No wall of length d grows from any of the cells. */
  ghost predicate NoneGrows(g: Grid, cells: seq<Coord>, d: int) {
    forall k :: 0 <= k < |cells| ==> !Growable(g, cells[k], d)
  }

  /** One more failed neighbour extends the failed prefix. */
  lemma NoneGrowsExtend(g: Grid, cells: seq<Coord>, i: int, d: int)
    requires 0 <= i < |cells| && NoneGrows(g, cells[..i], d) && !Growable(g, cells[i], d)
    ensures NoneGrows(g, cells[..i + 1], d)
  {
    assert cells[..i + 1] == cells[..i] + [cells[i]];
  }

  // ---------------------------------------------------------------------
  // Boards the tests use

  function Sign(n: int): (s: int) {
    if n > 0 then 1 else if n < 0 then -1 else 0
  }

  /** On a rectangular board whose cells are all open, a diagonal-first walk
      joins any two cells. */
  lemma {:induction false} OpenRectReach(g: Grid, h: int, a: Coord, b: Coord)
    requires forall i :: 0 <= i < |g| ==> |g[i]| == h
    requires forall c :: InBounds(g, c) ==> g[c.x][c.y] == 0
    requires InBounds(g, a) && InBounds(g, b)
    ensures Reach(g, a, b)
    decreases (if a.x < b.x then b.x - a.x else a.x - b.x) + (if a.y < b.y then b.y - a.y else a.y - b.y)
  {
    if a == b {
      ReachSelf(g, a);
    } else {
      var n := Coord(a.x + Sign(b.x - a.x), a.y + Sign(b.y - a.y));
      assert InBounds(g, n);
      OpenRectReach(g, h, n, b);
      ReachPrepend(g, a, n, b);
    }
  }

  /** A rectangular board with every cell open is connected. */
  lemma OpenRectConnected(g: Grid, h: int)
    requires forall i :: 0 <= i < |g| ==> |g[i]| == h
    requires forall c :: InBounds(g, c) ==> g[c.x][c.y] == 0
    ensures Connected(g)
  {
    forall a, b | Open(g, a) && Open(g, b)
      ensures Reach(g, a, b)
    {
      OpenRectReach(g, h, a, b);
    }
  }

  /** On a 3x3 board whose middle column x = 1 is built and whose other
      cells are open, the left column cannot reach the right one. */
  lemma MiddleColumnDisconnects(g: Grid)
    requires |g| == 3 && forall i :: 0 <= i < 3 ==> |g[i]| == 3
    requires forall j :: 0 <= j < 3 ==> g[0][j] == 0 && g[1][j] == 1 && g[2][j] == 0
    ensures !Connected(g)
  {
    var left := {Coord(0, 0), Coord(0, 1), Coord(0, 2)};
    forall c, n | c in left && Near(c, n) && Open(g, n)
      ensures n in left
    {
    }
    assert Open(g, Coord(0, 0)) && Open(g, Coord(2, 0));
    if Reach(g, Coord(0, 0), Coord(2, 0)) {
      var p :| IsPath(g, p) && p[0] == Coord(0, 0) && p[|p| - 1] == Coord(2, 0);
      ClosedHoldsReach(g, left, p);
    }
  }
}
