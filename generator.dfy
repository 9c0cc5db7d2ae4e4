/** The board generator: a connectivity check that floods the open cells
    from a cached root with a transient mark, and a backtracking wall
    builder that only commits walls that keep the open cells connected. */
module Generator {
  import opened Grids

  /** Unity's integer Random.Range(min, max): a value in [min, max), or min
      when max == min.  `draw` stands for the random outcome. */
  function RandomRange(min: int, max: int, draw: nat): (r: int)
    requires min <= max
    ensures max == min ==> r == min
    ensures min < max ==> min <= r < max
  {
    if max == min then min else min + draw % (max - min)
  }

  /** Every value of [min, max) is the outcome of some draw. */
  lemma RandomRangeCovers(min: int, max: int, r: int)
    requires min <= r < max
    ensures RandomRange(min, max, r - min) == r
  {
    assert (r - min) % (max - min) == r - min;
  }

  /** The index into the list of open squares that ChooseRandomSquare draws,
      as written: Random.Range(0, count - 1). */
  function SourceSquareIndex(count: int, draw: nat): (k: int)
    requires count >= 1
    ensures count == 1 ==> k == 0
    ensures count >= 2 ==> 0 <= k < count - 1
  {
    RandomRange(0, count - 1, draw)
  }

  /** As written, the last of two or more open squares is never drawn. */
  lemma LastOpenSquareNeverChosen(count: int, draw: nat)
    requires count >= 2
    ensures SourceSquareIndex(count, draw) != count - 1
  {
  }

  /** The index drawn over the whole list: Random.Range(0, count). */
  function SquareIndex(count: nat, draw: nat): (k: int)
    ensures count >= 1 ==> 0 <= k < count
  {
    RandomRange(0, count, draw)
  }

  /** Every open square's index is drawn by some draw. */
  lemma EveryOpenSquareChosen(count: int, k: int)
    requires 0 <= k < count
    ensures SquareIndex(count, k) == k
  {
    RandomRangeCovers(0, count, k);
  }

  class GameBoardGenerator {
    /** The board's cells, boardData[x, y]. */
    var board: array2<int>
    /** The cached root of the connectivity sweep. */
    var root: Coord

    constructor (board: array2<int>)
      ensures this.board == board && root == Coord(0, 0)
    {
      this.board := board;
      root := Coord(0, 0);
    }

    predicate InBoard(c: Coord)
      reads this`board
    {
      0 <= c.x < board.Length0 && 0 <= c.y < board.Length1
    }

    predicate IsOpen(c: Coord)
      reads this`board, board
    {
      InBoard(c) && board[c.x, c.y] == 0
    }

    predicate RootInBounds()
      reads this`board, this`root
    {
      InBoard(root)
    }

    ghost predicate AnyOpen()
      reads this`board, board
    {
      exists c :: IsOpen(c)
    }

    /** The board holds only its persistent values: no cell is marked and
        none is below zero. */
    ghost predicate Settled()
      reads this`board, board
    {
      NoMarks(Snapshot(board))
    }

    method GetData(square: Coord) returns (value: int)
      requires InBoard(square)
      ensures value == Snapshot(board)[square.x][square.y]
    {
      value := board[square.x, square.y];
    }

    method SetData(square: Coord, value: int)
      requires InBoard(square)
      modifies board
      ensures board[square.x, square.y] == value
      ensures forall i, j :: 0 <= i < board.Length0 && 0 <= j < board.Length1 && (i, j) != (square.x, square.y) ==>
        board[i, j] == old(board[i, j])
      ensures Snapshot(board) == Set(old(Snapshot(board)), square, value)
    {
      ghost var g0 := Snapshot(board);
      board[square.x, square.y] := value;
      GridExt(Snapshot(board), Set(g0, square, value));
    }

    // -------------------------------------------------------------------
    // Connectivity check

    method IsGraphRootOpen() returns (open: bool)
      requires RootInBounds()
      ensures open <==> Open(Snapshot(board), root)
    {
      open := board[root.x, root.y] == 0;
    }

    /** Keeps an open root; otherwise moves it to the first open cell in
        x-then-y order, or leaves it where it is when nothing is open. */
    method PickRoot()
      requires RootInBounds()
      modifies this`root
      ensures RootInBounds()
      ensures old(IsOpen(root)) ==> root == old(root)
      ensures !old(IsOpen(root)) && AnyOpen() ==> FirstOpen(Snapshot(board), root)
      ensures !AnyOpen() ==> root == old(root)
    {
      var rootOpen := IsGraphRootOpen();
      if !rootOpen {
        label scan:
        for i := 0 to board.Length0
          invariant root == old(root)
          invariant forall c :: IsOpen(c) ==> c.x >= i
        {
          for j := 0 to board.Length1
            invariant root == old(root)
            invariant forall c :: IsOpen(c) ==> c.x > i || (c.x == i && c.y >= j)
          {
            if board[i, j] == 0 {
              root := Coord(i, j);
              assert IsOpen(root);
              break scan;
            }
          }
        }
      }
    }

    /** The 3x3 block around square, in x-then-y order, keeping the cells
        that lie on the board and are open; the centre is not skipped. */
    method GetNeighbors(square: Coord) returns (ret: seq<Coord>)
      ensures forall c :: c in ret <==> Near(square, c) && IsOpen(c)
      ensures RowMajor(ret)
    {
      ret := [];
      for i := square.x - 1 to square.x + 2
        invariant forall c :: c in ret <==> Near(square, c) && IsOpen(c) && c.x < i
        invariant forall c :: c in ret ==> c.x < i
        invariant RowMajor(ret)
      {
        for j := square.y - 1 to square.y + 2
          invariant forall c :: c in ret <==> Near(square, c) && IsOpen(c) && (c.x < i || (c.x == i && c.y < j))
          invariant forall c :: c in ret ==> Before(c, Coord(i, j))
          invariant RowMajor(ret)
        {
          if 0 <= i < board.Length0 && 0 <= j < board.Length1 && board[i, j] == 0 {
            ret := ret + [Coord(i, j)];
          }
        }
      }
    }

    /** The same neighbours, shuffled by swapping each position with a
        randomly drawn later one. */
    method GetNeighborsRandomOrder(square: Coord) returns (neighbors: seq<Coord>)
      ensures forall c :: c in neighbors <==> Near(square, c) && IsOpen(c)
      ensures Distinct(neighbors)
    {
      neighbors := GetNeighbors(square);
      ghost var listed := neighbors;
      for i := 0 to |neighbors|
        invariant |neighbors| == |listed|
        invariant multiset(neighbors) == multiset(listed)
        invariant Distinct(neighbors)
      {
        var temp := neighbors[i];
        // Random.Range(i, Count), whatever the random outcome
        var draw: nat :| true;
        var randomIndex := RandomRange(i, |neighbors|, draw);
        SwapKeeps(neighbors, i, randomIndex);
        neighbors := neighbors[i := neighbors[randomIndex]];
        neighbors := neighbors[randomIndex := temp];
      }
      forall c
        ensures c in neighbors <==> c in listed
      {
        assert c in neighbors <==> c in multiset(neighbors);
        assert c in listed <==> c in multiset(listed);
      }
    }

    /** Breadth-first flood from the root: the root and every open cell
        reached from it through open cells become -1; nothing else changes. */
    method MarkConnected()
      requires RootInBounds()
      modifies board
      ensures MarkedOver(old(Snapshot(board)), Reached(old(Snapshot(board)), root))
    {
      ghost var g0 := Snapshot(board);
      board[root.x, root.y] := -1;
      var queue := [root];
      ghost var marked := {root};
      ReachSelf(g0, root);
      while |queue| > 0
        invariant MarkedOver(g0, marked)
        invariant FloodInv(g0, root, marked, queue)
        decreases OpenCells(g0) - marked, |queue|
      {
        ghost var marked0, queue0 := marked, queue;
        var cur := queue[0];
        queue := queue[1..];
        var neighbors := GetNeighbors(cur);
        UnmarkedNeighbors(g0, marked, cur, neighbors);
        queue := EnqueueMarked(neighbors, queue, g0, marked);
        marked := marked + set c | c in neighbors;
        FloodStep(g0, root, marked0, queue0, neighbors, marked, queue);
      }
      FloodDone(g0, root, marked);
    }

    /** The board is g0 with the cells of marked overwritten by -1. */
    ghost predicate MarkedOver(g0: Grid, marked: set<Coord>)
      reads this`board, board
    {
      |g0| == board.Length0 && (forall i :: 0 <= i < |g0| ==> |g0[i]| == board.Length1) &&
      forall i, j :: 0 <= i < board.Length0 && 0 <= j < board.Length1 ==>
        board[i, j] == if Coord(i, j) in marked then -1 else g0[i][j]
    }

    /** While the board is g0 with marked overwritten, the open neighbours
        are the cells open in g0 and not yet marked. */
    lemma UnmarkedNeighbors(g0: Grid, marked: set<Coord>, square: Coord, neighbors: seq<Coord>)
      requires MarkedOver(g0, marked)
      requires forall c :: c in neighbors <==> Near(square, c) && IsOpen(c)
      ensures forall c :: c in neighbors <==> Near(square, c) && Open(g0, c) && c !in marked
    {
      MarkedOpen(g0, marked);
    }

    /** The delegate applied to each neighbour in the flood: every listed
        cell becomes -1 and is appended to the queue. */
    method EnqueueMarked(cells: seq<Coord>, queue: seq<Coord>, ghost g0: Grid, ghost marked: set<Coord>)
      returns (queue': seq<Coord>)
      requires forall c :: c in cells ==> InBoard(c)
      requires MarkedOver(g0, marked)
      modifies board
      ensures queue' == queue + cells
      ensures MarkedOver(g0, marked + set c | c in cells)
    {
      queue' := queue;
      for k := 0 to |cells|
        invariant queue' == queue + cells[..k]
        invariant MarkedOver(g0, marked + set c | c in cells[..k])
      {
        SetData(cells[k], -1);
        queue' := queue' + [cells[k]];
        assert cells[..k + 1] == cells[..k] + [cells[k]];
      }
      assert cells[..|cells|] == cells;
    }

    /** True exactly when no cell is left open. */
    method VerifyMarks() returns (ok: bool)
      ensures ok <==> !AnyOpen()
    {
      for i := 0 to board.Length0
        invariant forall c :: IsOpen(c) ==> c.x >= i
      {
        for j := 0 to board.Length1
          invariant forall c :: IsOpen(c) ==> c.x > i || (c.x == i && c.y >= j)
        {
          if board[i, j] == 0 {
            assert IsOpen(Coord(i, j));
            return false;
          }
        }
      }
      return true;
    }

    /** Every mark -1 becomes open again; nothing else changes. */
    method UnMark()
      modifies board
      ensures forall i, j :: 0 <= i < board.Length0 && 0 <= j < board.Length1 ==>
        board[i, j] == if old(board[i, j]) == -1 then 0 else old(board[i, j])
    {
      for i := 0 to board.Length0
        invariant forall a, b :: 0 <= a < board.Length0 && 0 <= b < board.Length1 ==>
          board[a, b] == if a < i && old(board[a, b]) == -1 then 0 else old(board[a, b])
      {
        for j := 0 to board.Length1
          invariant forall a, b :: 0 <= a < board.Length0 && 0 <= b < board.Length1 ==>
            board[a, b] == if (a < i || (a == i && b < j)) && old(board[a, b]) == -1 then 0 else old(board[a, b])
        {
          if board[i, j] == -1 {
            board[i, j] := 0;
          }
        }
      }
    }

    /** Reports whether the open cells of the board are connected, and
        leaves every cell as it found it (a stray mark aside, which becomes
        open when anything is open). */
    method IsGraphConnected() returns (connected: bool)
      requires RootInBounds()
      modifies this`root, board
      ensures RootInBounds()
      ensures connected <==> Connected(old(Snapshot(board)))
      ensures forall i, j :: 0 <= i < board.Length0 && 0 <= j < board.Length1 ==>
        board[i, j] == if old(board[i, j]) == -1 && old(AnyOpen()) then 0 else old(board[i, j])
      ensures old(IsOpen(root)) || !old(AnyOpen()) ==> root == old(root)
      ensures !old(IsOpen(root)) && old(AnyOpen()) ==> FirstOpen(old(Snapshot(board)), root)
      ensures old(Settled()) ==> Snapshot(board) == old(Snapshot(board))
    {
      ghost var g0 := Snapshot(board);
      PickRoot();
      assert Snapshot(board) == g0 && AnyOpen() == old(AnyOpen());
      var rootOpen := IsGraphRootOpen();
      if !rootOpen {
        assert !AnyOpen();
        forall c | Open(g0, c)
          ensures false
        {
          assert IsOpen(c);
        }
        NoOpenConnected(g0);
        return true;
      }
      assert IsOpen(root);
      connected := Sweep();
    }

    /** The part of the check that runs from an open root: flood, look for
        an open cell left over, clear the marks. */
    method Sweep() returns (connected: bool)
      requires IsOpen(root)
      modifies board
      ensures connected <==> Connected(old(Snapshot(board)))
      ensures forall i, j :: 0 <= i < board.Length0 && 0 <= j < board.Length1 ==>
        board[i, j] == if old(board[i, j]) == -1 then 0 else old(board[i, j])
      ensures old(Settled()) ==> Snapshot(board) == old(Snapshot(board))
    {
      ghost var g0 := Snapshot(board);
      MarkConnected();
      SweepVerdict(g0, root);
      connected := VerifyMarks();
      SweepClears(g0, root);
      UnMark();
      if NoMarks(g0) {
        GridExt(Snapshot(board), g0);
      }
    }

    /** After the flood from an open root r, some cell is still open exactly
        when the open cells of g0 are not connected. */
    lemma SweepVerdict(g0: Grid, r: Coord)
      requires Open(g0, r) && MarkedOver(g0, Reached(g0, r))
      ensures AnyOpen() <==> !Connected(g0)
    {
      MarkedOpen(g0, Reached(g0, r));
      ConnectedFromRoot(g0, r);
      if AnyOpen() {
        var c :| IsOpen(c);
        assert !Reach(g0, r, c);
      } else {
        forall c | Open(g0, c)
          ensures Reach(g0, r, c)
        {
          assert !IsOpen(c);
        }
      }
    }

    /** After the flood from an open root, clearing the marks gives back g0
        with its own marks cleared: only open cells were marked. */
    lemma SweepClears(g0: Grid, r: Coord)
      requires Open(g0, r) && MarkedOver(g0, Reached(g0, r))
      ensures forall i, j :: 0 <= i < board.Length0 && 0 <= j < board.Length1 ==>
        (if board[i, j] == -1 then 0 else board[i, j]) == (if g0[i][j] == -1 then 0 else g0[i][j])
    {
      ReachedOpen(g0, r);
      forall i, j | 0 <= i < board.Length0 && 0 <= j < board.Length1
        ensures (if board[i, j] == -1 then 0 else board[i, j]) == (if g0[i][j] == -1 then 0 else g0[i][j])
      {
        assert Open(g0, Coord(i, j)) || Coord(i, j) !in Reached(g0, r);
      }
    }

    /** While the board is g0 with marked overwritten, a cell is open
        exactly when it is open in g0 and not marked. */
    lemma MarkedOpen(g0: Grid, marked: set<Coord>)
      requires MarkedOver(g0, marked)
      ensures forall c :: IsOpen(c) <==> Open(g0, c) && c !in marked
    {
      forall c
        ensures IsOpen(c) <==> Open(g0, c) && c !in marked
      {
        if InBoard(c) {
          assert board[c.x, c.y] == if c in marked then -1 else g0[c.x][c.y];
        }
      }
    }

    // -------------------------------------------------------------------
    // Wall builder

    /** Tries to build a wall of exactly `depth` cells starting at parent,
        backtracking over the open neighbours in random order.  On success
        the wall's cells are built and the open cells stay connected; on
        failure the board is as before. */
    method Build(parent: Coord, depth: int) returns (ok: bool, ghost wall: seq<Coord>)
      requires RootInBounds() && Settled() && InBoard(parent)
      modifies this`root, board
      decreases depth, 2
      ensures RootInBounds() && Settled()
      ensures ok <==> Growable(old(Snapshot(board)), parent, depth)
      ensures !ok ==> Snapshot(board) == old(Snapshot(board))
      ensures ok ==> IsWall(old(Snapshot(board)), depth, wall) && wall[0] == parent
      ensures ok ==> WallBuilt(old(Snapshot(board)), wall, Snapshot(board))
      ensures ok ==> Connected(Snapshot(board))
      ensures |OpenCells(Snapshot(board))| == |OpenCells(old(Snapshot(board)))| - if ok then depth else 0
    {
      ghost var g0 := Snapshot(board);
      wall := [];
      if depth <= 0 {
        NotGrowable(g0, parent, depth);
        return false, wall;
      }
      var value := GetData(parent);
      assert Snapshot(board) == g0;
      if value > 0 {
        NotGrowable(g0, parent, depth);
        return false, wall;
      }
      var connected := BuildIfConnected(parent);
      if !connected {
        NotGrowable(g0, parent, depth);
        return false, wall;
      }
      ghost var g1 := Snapshot(board);
      assert g1 == Set(g0, parent, 1) && Connected(g1);
      if depth == 1 {
        wall := [parent];
        WallStart(g0, parent, g1);
        GrowsAlone(g0, parent);
        return true, wall;
      }
      ok, wall := BuildOnNeighbours(parent, depth, g0);
    }

    /** The rest of Build once parent is built and the board is still
        connected: grow a wall of depth - 1 from one of parent's open
        neighbours, or take parent down again. */
    method BuildOnNeighbours(parent: Coord, depth: int, ghost g0: Grid) returns (ok: bool, ghost wall: seq<Coord>)
      requires RootInBounds() && Settled() && depth >= 2
      requires Open(g0, parent) && Snapshot(board) == Set(g0, parent, 1) && Connected(Snapshot(board))
      modifies this`root, board
      decreases depth, 1
      ensures RootInBounds() && Settled()
      ensures ok <==> Growable(g0, parent, depth)
      ensures !ok ==> Snapshot(board) == g0
      ensures ok ==> IsWall(g0, depth, wall) && wall[0] == parent
      ensures ok ==> WallBuilt(g0, wall, Snapshot(board))
      ensures ok ==> Connected(Snapshot(board))
      ensures |OpenCells(Snapshot(board))| == |OpenCells(g0)| - if ok then depth else 0
    {
      ghost var g1 := Snapshot(board);
      var neighbors := GetNeighborsRandomOrder(parent);
      OpenInSnapshot();
      BoardShape();
      assert forall c :: c in neighbors <==> Near(parent, c) && Open(g1, c);
      var d1 := depth - 1;
      var built, w := BuildFromNeighbours(neighbors, d1, g1);
      if built {
        wall := [parent] + w;
        WallStep(g0, parent, g1, w, d1, depth, Snapshot(board));
        GrowsFromNeighbour(g0, parent, g1, w[0], d1, depth);
        return true, wall;
      }
      NoNeighbourGrows(g0, parent, g1, d1, depth, neighbors);
      SetData(parent, 0);
      SetBack(g0, parent, 1);
      SetKeepsNoMarks(g1, parent, 0);
      return false, [];
    }

    /** The loop of Build over the shuffled neighbours: the first neighbour
        from which a wall of d cells is built wins; when none succeeds the
        board is as before. */
    method BuildFromNeighbours(neighbors: seq<Coord>, d: int, ghost g1: Grid) returns (ok: bool, ghost wall: seq<Coord>)
      requires RootInBounds() && Settled() && d >= 1 && Snapshot(board) == g1
      requires forall c :: c in neighbors ==> InBoard(c)
      modifies this`root, board
      decreases d, 3
      ensures RootInBounds() && Settled()
      ensures !ok <==> NoneGrows(g1, neighbors, d)
      ensures !ok ==> Snapshot(board) == g1
      ensures ok ==> IsWall(g1, d, wall) && wall[0] in neighbors
      ensures ok ==> exists k :: 0 <= k < |neighbors| && neighbors[k] == wall[0] && NoneGrows(g1, neighbors[..k], d)
      ensures ok ==> Growable(g1, wall[0], d)
      ensures ok ==> WallBuilt(g1, wall, Snapshot(board)) && Connected(Snapshot(board))
    {
      wall := [];
      for i := 0 to |neighbors|
        invariant RootInBounds() && Settled()
        invariant Snapshot(board) == g1
        invariant NoneGrows(g1, neighbors[..i], d)
      {
        var built, w := Build(neighbors[i], d);
        if built {
          return true, w;
        }
        NoneGrowsExtend(g1, neighbors, i, d);
      }
      assert neighbors[..|neighbors|] == neighbors;
      return false, wall;
    }

    /** IsOpen reads the board as its snapshot does. */
    lemma OpenInSnapshot()
      ensures forall c :: IsOpen(c) <==> Open(Snapshot(board), c)
    {
    }

    /** InBoard reads the board's shape as its snapshot does. */
    lemma BoardShape()
      ensures forall c :: InBoard(c) <==> InBounds(Snapshot(board), c)
    {
    }

    /** Builds parent, keeping it only when the open cells stay connected. */
    method BuildIfConnected(parent: Coord) returns (connected: bool)
      requires RootInBounds() && Settled() && IsOpen(parent)
      modifies this`root, board
      ensures RootInBounds() && Settled()
      ensures connected <==> Connected(Set(old(Snapshot(board)), parent, 1))
      ensures connected ==> Snapshot(board) == Set(old(Snapshot(board)), parent, 1)
      ensures !connected ==> Snapshot(board) == old(Snapshot(board))
    {
      ghost var g0 := Snapshot(board);
      SetData(parent, 1);
      ghost var g1 := Snapshot(board);
      SetKeepsNoMarks(g0, parent, 1);
      connected := IsGraphConnected();
      assert Snapshot(board) == g1;
      if !connected {
        SetData(parent, 0);
        SetBack(g0, parent, 1);
      }
    }

    // -------------------------------------------------------------------
    // Open squares

    /** The open cells, in x-then-y order. */
    method GetOpenSquares() returns (openSquares: seq<Coord>)
      ensures forall c :: c in openSquares <==> IsOpen(c)
      ensures RowMajor(openSquares)
    {
      openSquares := [];
      for i := 0 to board.Length0
        invariant forall c :: c in openSquares <==> IsOpen(c) && c.x < i
        invariant RowMajor(openSquares)
      {
        for j := 0 to board.Length1
          invariant forall c :: c in openSquares <==> IsOpen(c) && (c.x < i || (c.x == i && c.y < j))
          invariant forall c :: c in openSquares ==> Before(c, Coord(i, j))
          invariant RowMajor(openSquares)
        {
          if board[i, j] == 0 {
            openSquares := openSquares + [Coord(i, j)];
          }
        }
      }
    }

    method CountOpenSquares() returns (count: int)
      ensures count == |OpenCells(Snapshot(board))|
    {
      var openSquares := GetOpenSquares();
      count := |openSquares|;
      OpenListCount(openSquares);
    }

    /** A list holding each open cell once has as many elements as the
        board has open cells. */
    lemma OpenListCount(s: seq<Coord>)
      requires forall c :: c in s <==> IsOpen(c)
      requires RowMajor(s)
      ensures |s| == |OpenCells(Snapshot(board))|
    {
      assert Distinct(s);
      DistinctCard(s);
      assert (set c | c in s) == OpenCells(Snapshot(board));
    }

    /** (-1, -1) when nothing is open; otherwise the open cell with exactly
        SquareIndex(count, draw) open cells before it in x-then-y order. */
    method ChooseRandomSquare(draw: nat) returns (square: Coord)
      ensures square == Coord(-1, -1) <==> !AnyOpen()
      ensures AnyOpen() ==>
        IsOpen(square) &&
        |set c | c in OpenCells(Snapshot(board)) && Before(c, square)| ==
          SquareIndex(|OpenCells(Snapshot(board))|, draw)
    {
      var openSquares := GetOpenSquares();
      if |openSquares| == 0 {
        assert !AnyOpen();
        return Coord(-1, -1);
      }
      assert IsOpen(openSquares[0]);
      OpenListCount(openSquares);
      var k := SquareIndex(|openSquares|, draw);
      square := openSquares[k];
      RowMajorRank(openSquares, k);
      assert (set c | c in OpenCells(Snapshot(board)) && Before(c, square)) ==
        set c | c in openSquares && Before(c, square);
    }

    /** Builds one wall of the given length from a randomly chosen open
        cell, or nothing when no cell is open or no wall fits. */
    method GenerateWall(length: int, draw: nat) returns (ghost start: Coord, ghost built: bool, ghost wall: seq<Coord>)
      requires RootInBounds() && Settled()
      modifies this`root, board
      ensures RootInBounds() && Settled()
      ensures start == Coord(-1, -1) <==> OpenCells(old(Snapshot(board))) == {}
      ensures start != Coord(-1, -1) ==>
        Open(old(Snapshot(board)), start) &&
        |set c | c in OpenCells(old(Snapshot(board))) && Before(c, start)| ==
          SquareIndex(|OpenCells(old(Snapshot(board)))|, draw)
      ensures built <==> start != Coord(-1, -1) && Growable(old(Snapshot(board)), start, length)
      ensures !built ==> Snapshot(board) == old(Snapshot(board))
      ensures built ==> IsWall(old(Snapshot(board)), length, wall) && wall[0] == start
      ensures built ==> WallBuilt(old(Snapshot(board)), wall, Snapshot(board))
      ensures built ==> Connected(Snapshot(board))
      ensures |OpenCells(Snapshot(board))| == |OpenCells(old(Snapshot(board)))| - if built then length else 0
    {
      ghost var g0 := Snapshot(board);
      var cur := ChooseRandomSquare(draw);
      start := cur;
      OpenInSnapshot();
      if cur.x < 0 {
        return start, false, [];
      }
      built, wall := Build(cur, length);
    }
  }
}
