/** The generator's unit tests replayed on the model.  Each method sets up
    the board its test sets up, runs the generator, and promises what the
    test asserts. */
module Scenarios {
  import opened Grids
  import opened Generator

  /** A w by h board with every cell open. */
  ghost predicate AllOpen(g: Grid, w: int, h: int) {
    |g| == w && (forall i :: 0 <= i < w ==> |g[i]| == h) &&
    forall c :: InBounds(g, c) ==> g[c.x][c.y] == 0
  }

  /** When every open cell lies next to one open hub, the open cells are
      connected through it. */
  lemma HubConnected(g: Grid, hub: Coord)
    requires Open(g, hub)
    requires forall c :: Open(g, c) ==> Near(hub, c)
    ensures Connected(g)
  {
    forall a, b | Open(g, a) && Open(g, b)
      ensures Reach(g, a, b)
    {
      assert IsPath(g, [a, hub, b]);
    }
  }

  /** On a rectangular board whose cells other than the corner (0, 0) are
      all open, a diagonal-first walk reaches every cell but the corner. */
  lemma {:induction false} CornerBlockedReach(g: Grid, h: int, a: Coord, b: Coord)
    requires forall i :: 0 <= i < |g| ==> |g[i]| == h
    requires forall c :: InBounds(g, c) && c != Coord(0, 0) ==> g[c.x][c.y] == 0
    requires InBounds(g, a) && InBounds(g, b) && b != Coord(0, 0)
    ensures Reach(g, a, b)
    decreases (if a.x < b.x then b.x - a.x else a.x - b.x) + (if a.y < b.y then b.y - a.y else a.y - b.y)
  {
    if a == b {
      ReachSelf(g, a);
    } else {
      var n := Coord(a.x + Sign(b.x - a.x), a.y + Sign(b.y - a.y));
      assert InBounds(g, n) && n != Coord(0, 0);
      CornerBlockedReach(g, h, n, b);
      ReachPrepend(g, a, n, b);
    }
  }

  /** Building the corner (0, 0) of an open rectangle keeps it connected. */
  lemma CornerBlockedConnected(g: Grid, h: int)
    requires forall i :: 0 <= i < |g| ==> |g[i]| == h
    requires forall c :: InBounds(g, c) && c != Coord(0, 0) ==> g[c.x][c.y] == 0
    requires InBounds(g, Coord(0, 0)) && g[0][0] == 1
    ensures Connected(g)
  {
    forall a, b | Open(g, a) && Open(g, b)
      ensures Reach(g, a, b)
    {
      CornerBlockedReach(g, h, a, b);
    }
  }

  /** A fresh w by h board, every cell open. */
  method NewBoard(w: nat, h: nat) returns (a: array2<int>)
    ensures fresh(a) && AllOpen(Snapshot(a), w, h)
  {
    a := new int[w, h]((i, j) => 0);
  }

  /** Start_Connected: a board with every cell open is connected. */
  method StartConnected(w: nat, h: nat) returns (connected: bool)
    requires w >= 1 && h >= 1
    ensures connected
  {
    var a := NewBoard(w, h);
    var gen := new GameBoardGenerator(a);
    OpenRectConnected(Snapshot(a), h);
    connected := gen.IsGraphConnected();
  }

  /** Start_RootOpen: on a board with every cell open the root is open. */
  method StartRootOpen(w: nat, h: nat) returns (open: bool)
    requires w >= 1 && h >= 1
    ensures open
  {
    var a := NewBoard(w, h);
    var gen := new GameBoardGenerator(a);
    open := gen.IsGraphRootOpen();
  }

  /** BlockRoot_RootClosed: once the root cell is built the root is no
      longer open. */
  method BlockRootRootClosed(w: nat, h: nat) returns (open: bool)
    requires w >= 1 && h >= 1
    ensures !open
  {
    var a := NewBoard(w, h);
    var gen := new GameBoardGenerator(a);
    a[0, 0] := 1;
    open := gen.IsGraphRootOpen();
  }

  /** BlockRoot_IsConnected: building the root cell of an open board keeps
      it connected (the sweep moves its root). */
  method BlockRootIsConnected(w: nat, h: nat) returns (connected: bool)
    requires w >= 1 && h >= 1
    ensures connected
  {
    var a := NewBoard(w, h);
    var gen := new GameBoardGenerator(a);
    a[0, 0] := 1;
    CornerBlockedConnected(Snapshot(a), h);
    connected := gen.IsGraphConnected();
  }

  /** BlockAll_IsConnected: a board with no open cell counts as connected. */
  method BlockAllIsConnected() returns (connected: bool)
    ensures connected
  {
    var a := new int[1, 1]((i, j) => 1);
    var gen := new GameBoardGenerator(a);
    NoOpenConnected(Snapshot(a));
    connected := gen.IsGraphConnected();
  }

  /** BlockLine_IsNotConnected: a built middle column splits a 3 by 3
      board. */
  method BlockLineIsNotConnected() returns (connected: bool)
    ensures !connected
  {
    var a := new int[3, 3]((i, j) => if i == 1 then 1 else 0);
    var gen := new GameBoardGenerator(a);
    MiddleColumnDisconnects(Snapshot(a));
    connected := gen.IsGraphConnected();
  }

  /** Empty_MarkConnectedMarksAll: on every open square board of side 1 to
      19 the flood marks every cell. */
  method EmptyMarkConnectedMarksAll() returns (allMarked: bool)
    ensures allMarked
  {
    var a := NewBoard(1, 1);
    var gen := new GameBoardGenerator(a);
    allMarked := true;
    for scale := 1 to 20
      invariant allMarked && gen.root == Coord(0, 0)
    {
      a := NewBoard(scale, scale);
      gen.board := a;
      ghost var g0 := Snapshot(a);
      OpenRectConnected(g0, scale);
      ConnectedFromRoot(g0, gen.root);
      gen.MarkConnected();
      assert !gen.AnyOpen() by {
        forall c | gen.IsOpen(c)
          ensures false
        {
          assert Open(g0, c);
        }
      }
      var ok := gen.VerifyMarks();
      allMarked := allMarked && ok;
    }
  }

  /** On a 2 by 2 board every two cells are 8-adjacent, so whatever is
      built, the open cells are connected. */
  lemma TwoByTwoConnected(g: Grid)
    requires |g| == 2 && forall i :: 0 <= i < 2 ==> |g[i]| == 2
    ensures Connected(g)
  {
    forall a, b | Open(g, a) && Open(g, b)
      ensures Reach(g, a, b)
    {
      assert IsPath(g, [a, b]);
    }
  }

  /** An open 2 by 2 board has four open cells. */
  lemma TwoByTwoCount(g: Grid)
    requires AllOpen(g, 2, 2)
    ensures |OpenCells(g)| == 4
  {
    assert OpenCells(g) == {Coord(0, 0), Coord(0, 1), Coord(1, 0), Coord(1, 1)};
  }

  /** An open 2 by 3 board has six open cells. */
  lemma TwoByThreeCount(g: Grid)
    requires AllOpen(g, 2, 3)
    ensures |OpenCells(g)| == 6
  {
    assert OpenCells(g) == {Coord(0, 0), Coord(0, 1), Coord(0, 2), Coord(1, 0), Coord(1, 1), Coord(1, 2)};
  }

  /** On an open 2 by 2 board a wall of any length from 1 to 4 grows from
      the corner (0, 0): (0, 0), (0, 1), (1, 0), (1, 1) in turn. */
  lemma TwoByTwoGrows(g0: Grid)
    requires AllOpen(g0, 2, 2)
    ensures forall depth :: 1 <= depth <= 4 ==> Growable(g0, Coord(0, 0), depth)
  {
    TwoByTwoChain(g0);
    forall depth | 1 <= depth <= 4
      ensures Growable(g0, Coord(0, 0), depth)
    {
      if depth == 1 {
        assert Growable(g0, Coord(0, 0), 1);
      } else if depth == 2 {
        assert Growable(g0, Coord(0, 0), 2);
      } else if depth == 3 {
        assert Growable(g0, Coord(0, 0), 3);
      } else {
        assert depth == 4;
        assert Growable(g0, Coord(0, 0), 4);
      }
    }
  }

  lemma TwoByTwoChain(g0: Grid)
    requires AllOpen(g0, 2, 2)
    ensures Growable(g0, Coord(0, 0), 1) && Growable(g0, Coord(0, 0), 2)
    ensures Growable(g0, Coord(0, 0), 3) && Growable(g0, Coord(0, 0), 4)
  {
    var p1, p2, p3, p4 := Coord(0, 0), Coord(0, 1), Coord(1, 0), Coord(1, 1);
    var g1 := Set(g0, p1, 1);
    var g2 := Set(g1, p2, 1);
    var g3 := Set(g2, p3, 1);
    var g4 := Set(g3, p4, 1);
    TwoByTwoConnected(g1);
    TwoByTwoConnected(g2);
    TwoByTwoConnected(g3);
    TwoByTwoConnected(g4);
    GrowsAlone(g3, p4);
    GrowsAlone(g2, p3);
    GrowsAlone(g1, p2);
    GrowsAlone(g0, p1);
    GrowsFromNeighbour(g2, p3, g3, p4, 1, 2);
    GrowsFromNeighbour(g1, p2, g2, p3, 1, 2);
    GrowsFromNeighbour(g1, p2, g2, p3, 2, 3);
    GrowsFromNeighbour(g0, p1, g1, p2, 1, 2);
    GrowsFromNeighbour(g0, p1, g1, p2, 2, 3);
    GrowsFromNeighbour(g0, p1, g1, p2, 3, 4);
  }

  /** On an open 2 by 3 board a wall of length 5 grows from the corner
      (0, 0): (0, 0), (0, 1), (0, 2), (1, 2), (1, 1), leaving (1, 0). */
  lemma TwoByThreeGrowsFive(g0: Grid)
    requires AllOpen(g0, 2, 3)
    ensures Growable(g0, Coord(0, 0), 5)
  {
    var p1, p2, p3, p4, p5 := Coord(0, 0), Coord(0, 1), Coord(0, 2), Coord(1, 2), Coord(1, 1);
    var g1 := Set(g0, p1, 1);
    var g2 := Set(g1, p2, 1);
    var g3 := Set(g2, p3, 1);
    var g4 := Set(g3, p4, 1);
    var g5 := Set(g4, p5, 1);
    HubConnected(g1, p5);
    HubConnected(g2, p5);
    HubConnected(g3, p5);
    HubConnected(g4, p5);
    HubConnected(g5, Coord(1, 0));
    GrowsAlone(g4, p5);
    GrowsFromNeighbour(g3, p4, g4, p5, 1, 2);
    GrowsFromNeighbour(g2, p3, g3, p4, 2, 3);
    GrowsFromNeighbour(g1, p2, g2, p3, 3, 4);
    GrowsFromNeighbour(g0, p1, g1, p2, 4, 5);
  }

  /** BuildOne_Builds, BuildTwo_Builds, BuildThree_Builds and
      BuildFull_Builds: a wall of 1 to 4 cells from the corner of an open
      2 by 2 board is built, the corner among its cells. */
  method BuildOnTwoByTwo(depth: int) returns (count: int, corner: int)
    requires 1 <= depth <= 4
    ensures count == 4 - depth && corner == 1
  {
    var a := NewBoard(2, 2);
    var gen := new GameBoardGenerator(a);
    ghost var g0 := Snapshot(a);
    TwoByTwoCount(g0);
    TwoByTwoGrows(g0);
    var ok, wall := gen.Build(Coord(0, 0), depth);
    assert wall[0] in wall;
    count := gen.CountOpenSquares();
    corner := gen.GetData(Coord(0, 0));
  }

  /** BuildTooMuch_DoesntBuild: a wall of 5 cells does not fit on a 2 by 2
      board, so nothing is built. */
  method BuildTooMuch() returns (count: int)
    ensures count == 4
  {
    var a := NewBoard(2, 2);
    var gen := new GameBoardGenerator(a);
    ghost var g0 := Snapshot(a);
    TwoByTwoCount(g0);
    var ok, wall := gen.Build(Coord(0, 0), 5);
    if ok {
      WallFitsOpen(g0, 5, wall);
    }
    assert Snapshot(a) == g0;
    count := gen.CountOpenSquares();
  }

  /** BuildAlmostFull_Builds: a wall of 5 cells from the corner of an open
      2 by 3 board is built and leaves one cell open. */
  method BuildAlmostFull() returns (count: int)
    ensures count == 1
  {
    var a := NewBoard(2, 3);
    var gen := new GameBoardGenerator(a);
    ghost var g0 := Snapshot(a);
    TwoByThreeCount(g0);
    TwoByThreeGrowsFive(g0);
    var ok, wall := gen.Build(Coord(0, 0), 5);
    count := gen.CountOpenSquares();
  }
}
