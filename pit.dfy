/** The pit: a grid of locked blocks plus one falling four-cell piece, with
    the movement checks, locking, row clearing and respawn that drive the
    game. Every operation runs to completion within one call. */
module Pit {
  import opened Tetromino
  import opened Grid

  /** The three moves the pit checks before making them. */
  datatype Direction = Left | Right | Down

  /** What a movement check finds: the move fits, the move is blocked, or
      the check would index the grid out of range, which aborts the
      program. */
  datatype Check = Fits | Blocked | Panics

  /** What one downward step did: the piece fell a row, or it could not
      fall and was locked (`cleared` full rows were removed and a new piece
      spawned), or an index out of range aborted the program. */
  datatype Drop = Fell | Landed(cleared: nat) | Crashed

  /** The cell that `c` moves into. */
  function Target(dir: Direction, c: Cell): Cell
  {
    match dir
    case Left => Cell(c.x - 1, c.y)
    case Right => Cell(c.x + 1, c.y)
    case Down => Cell(c.x, c.y + 1)
  }

  /** The piece after the move. */
  function Moved(dir: Direction, p: seq<Cell>): seq<Cell>
  {
    match dir
    case Left => Shift(p, -1, 0)
    case Right => Shift(p, 1, 0)
    case Down => Shift(p, 0, 1)
  }

  /** Reading the grid at `t`. */
  function Probe(g: seq<seq<bool>>, t: Cell): Check
  {
    if !InGrid(g, t) then Panics
    else if g[t.y][t.x] then Blocked
    else Fits
  }

  /** The check of one cell of the piece. A sideways move is blocked by the
      wall before anything else, skips the grid for a cell above the
      visible rows, and is otherwise decided by the neighbouring cell. A
      downward move is blocked by the floor, and otherwise decided by the
      cell below, whatever the cell's row. */
  function CellCheck(dir: Direction, c: Cell, g: seq<seq<bool>>, width: int, height: int): Check
  {
    match dir
    case Right =>
      if c.x + 1 >= width then Blocked
      else if c.y < 0 then Fits
      else Probe(g, Target(dir, c))
    case Left =>
      if c.x <= 0 then Blocked
      else if c.y < 0 then Fits
      else Probe(g, Target(dir, c))
    case Down =>
      if c.y + 1 >= height then Blocked
      else Probe(g, Target(dir, c))
  }

  /** The check of a whole piece, cell by cell in order: the first cell
      that does not fit decides. */
  function PieceCheck(dir: Direction, p: seq<Cell>, g: seq<seq<bool>>, width: int, height: int): (v: Check)
    ensures v == Fits <==> forall i :: 0 <= i < |p| ==> CellCheck(dir, p[i], g, width, height) == Fits
    ensures v != Fits ==> exists i :: 0 <= i < |p| && CellCheck(dir, p[i], g, width, height) == v &&
                                      forall j :: 0 <= j < i ==> CellCheck(dir, p[j], g, width, height) == Fits
  {
    if p == [] then Fits
    else
      var first := CellCheck(dir, p[0], g, width, height);
      if first != Fits then first
      else
        var rest := PieceCheck(dir, p[1..], g, width, height);
        assert forall i :: 1 <= i < |p| ==> p[i] == p[1..][i - 1];
        if rest != Fits then
          var k :| 0 <= k < |p[1..]| && CellCheck(dir, p[1..][k], g, width, height) == rest &&
                   forall j :: 0 <= j < k ==> CellCheck(dir, p[1..][j], g, width, height) == Fits;
          assert CellCheck(dir, p[k + 1], g, width, height) == rest;
          rest
        else
          rest
  }

  /** The first cell that does not fit decides the whole check. */
  lemma FirstMisfitDecides(dir: Direction, p: seq<Cell>, g: seq<seq<bool>>, width: int, height: int, k: nat)
    requires k < |p| && CellCheck(dir, p[k], g, width, height) != Fits
    requires forall j :: 0 <= j < k ==> CellCheck(dir, p[j], g, width, height) == Fits
    ensures PieceCheck(dir, p, g, width, height) == CellCheck(dir, p[k], g, width, height)
  {
    var v := PieceCheck(dir, p, g, width, height);
    var i :| 0 <= i < |p| && CellCheck(dir, p[i], g, width, height) == v &&
             forall j :: 0 <= j < i ==> CellCheck(dir, p[j], g, width, height) == Fits;
    assert v != Fits;
    assert k <= i;
    assert i <= k;
  }

  /** The placement the pit promises after a successful move: every cell is
      between the walls, and every cell in a visible row is inside the grid
      and free. */
  predicate Placed(p: seq<Cell>, g: seq<seq<bool>>, width: int)
  {
    forall i :: 0 <= i < |p| ==>
      0 <= p[i].x < width && (p[i].y >= 0 ==> InGrid(g, p[i]) && !g[p[i].y][p[i].x])
  }

  /** A placed piece never makes a sideways check panic, and a move to the
      right is blocked exactly when some cell is at the right wall or has
      an occupied right neighbour in a visible row. */
  lemma RightRule(p: seq<Cell>, g: seq<seq<bool>>, width: nat, height: nat)
    requires Shaped(g, width, height) && Placed(p, g, width)
    ensures PieceCheck(Right, p, g, width, height) != Panics
    ensures PieceCheck(Right, p, g, width, height) == Blocked <==>
      exists i :: 0 <= i < |p| && (p[i].x + 1 >= width || (p[i].y >= 0 && Solid(g, Cell(p[i].x + 1, p[i].y))))
  {
    var v := PieceCheck(Right, p, g, width, height);
    forall i | 0 <= i < |p|
      ensures CellCheck(Right, p[i], g, width, height) != Panics
    {
      if p[i].x + 1 < width && p[i].y >= 0 {
        assert InGrid(g, Cell(p[i].x + 1, p[i].y));
      }
    }
  }

  /** The mirror image: a move to the left is blocked exactly when some cell
      is at the left wall or has an occupied left neighbour in a visible
      row. */
  lemma LeftRule(p: seq<Cell>, g: seq<seq<bool>>, width: nat, height: nat)
    requires Shaped(g, width, height) && Placed(p, g, width)
    ensures PieceCheck(Left, p, g, width, height) != Panics
    ensures PieceCheck(Left, p, g, width, height) == Blocked <==>
      exists i :: 0 <= i < |p| && (p[i].x <= 0 || (p[i].y >= 0 && Solid(g, Cell(p[i].x - 1, p[i].y))))
  {
    var v := PieceCheck(Left, p, g, width, height);
    forall i | 0 <= i < |p|
      ensures CellCheck(Left, p[i], g, width, height) != Panics
    {
      if p[i].x > 0 && p[i].y >= 0 {
        assert InGrid(g, Cell(p[i].x - 1, p[i].y));
      }
    }
  }

  /** A placed piece with no cell more than one row above the grid never
      makes the downward check panic, and it is blocked exactly when some
      cell is on the floor or sits on an occupied cell. */
  lemma DownRule(p: seq<Cell>, g: seq<seq<bool>>, width: nat, height: nat)
    requires Shaped(g, width, height) && Placed(p, g, width)
    requires forall i :: 0 <= i < |p| ==> p[i].y >= -1
    ensures PieceCheck(Down, p, g, width, height) != Panics
    ensures PieceCheck(Down, p, g, width, height) == Blocked <==>
      exists i :: 0 <= i < |p| && (p[i].y + 1 >= height || Solid(g, Cell(p[i].x, p[i].y + 1)))
  {
    var v := PieceCheck(Down, p, g, width, height);
    forall i | 0 <= i < |p|
      ensures CellCheck(Down, p[i], g, width, height) != Panics
    {
      if p[i].y + 1 < height {
        assert InGrid(g, Cell(p[i].x, p[i].y + 1));
      }
    }
  }

  /** A move that fits leaves the piece placed. A downward move needs no
      assumption about where the piece was; a sideways move needs the piece
      to have been between the walls. */
  lemma MoveKeepsPlacement(dir: Direction, p: seq<Cell>, g: seq<seq<bool>>, width: nat, height: nat)
    requires Shaped(g, width, height)
    requires dir != Down ==> Placed(p, g, width)
    requires PieceCheck(dir, p, g, width, height) == Fits
    ensures Placed(Moved(dir, p), g, width)
  {
    var q := Moved(dir, p);
    forall i | 0 <= i < |q|
      ensures 0 <= q[i].x < width && (q[i].y >= 0 ==> InGrid(g, q[i]) && !g[q[i].y][q[i].x])
    {
      assert CellCheck(dir, p[i], g, width, height) == Fits;
      assert q[i] == Target(dir, p[i]);
    }
  }

  /** Moving left and then right puts a placed piece back where it was:
      the way back is always free. */
  lemma LeftThenRight(p: seq<Cell>, g: seq<seq<bool>>, width: nat, height: nat)
    requires Shaped(g, width, height) && Placed(p, g, width)
    requires PieceCheck(Left, p, g, width, height) == Fits
    ensures PieceCheck(Right, Moved(Left, p), g, width, height) == Fits
    ensures Moved(Right, Moved(Left, p)) == p
  {
    var q := Moved(Left, p);
    forall i | 0 <= i < |q|
      ensures CellCheck(Right, q[i], g, width, height) == Fits
    {
      assert Target(Right, q[i]) == p[i];
    }
    ShiftTwice(p, -1, 0, 1, 0);
  }

  /** Moving right and then left puts a placed piece back where it was. */
  lemma RightThenLeft(p: seq<Cell>, g: seq<seq<bool>>, width: nat, height: nat)
    requires Shaped(g, width, height) && Placed(p, g, width)
    requires PieceCheck(Right, p, g, width, height) == Fits
    ensures PieceCheck(Left, Moved(Right, p), g, width, height) == Fits
    ensures Moved(Left, Moved(Right, p)) == p
  {
    var q := Moved(Right, p);
    forall i | 0 <= i < |q|
      ensures CellCheck(Left, q[i], g, width, height) == Fits
    {
      assert Target(Left, q[i]) == p[i];
    }
    ShiftTwice(p, 1, 0, -1, 0);
  }

  /** A new piece is placed whenever the pit is at least seven columns wide
      and the spawn area of the top row is free. */
  lemma SpawnIsPlaced(shape: Shape, g: seq<seq<bool>>, width: nat, height: nat)
    requires Shaped(g, width, height) && width >= 7 && height > 0
    requires forall x :: 3 <= x <= 6 ==> !g[0][x]
    ensures Placed(Spawn(shape), g, width)
  {
  }

  /** Every shape but I has a cell above the grid, so a new piece that is
      blocked at once cannot be locked: locking it would index row -1. */
  lemma BlockedSpawnCannotLock(shape: Shape, g: seq<seq<bool>>)
    requires shape != I
    ensures LockablePrefix(g, Spawn(shape)) < PieceSize
  {
    var p := Spawn(shape);
    var k := if shape == L then 3 else if shape == J then 1 else 2;
    assert p[k].y == -1 && !InGrid(g, p[k]);
  }

  /** A piece reaching two rows above the grid makes the downward check
      index row -1 once the cells before it fit. */
  lemma TwoAboveGridPanics(g: seq<seq<bool>>, width: nat, height: nat)
    requires Shaped(g, width, height) && width >= 7 && height >= 2
    requires !g[0][3] && !g[1][2] && !g[1][3]
    ensures PieceCheck(Down, [Cell(3, 0), Cell(2, 0), Cell(3, -1), Cell(3, -2)], g, width, height) == Panics
  {
    var p := [Cell(3, 0), Cell(2, 0), Cell(3, -1), Cell(3, -2)];
    assert CellCheck(Down, p[0], g, width, height) == Fits;
    assert CellCheck(Down, p[1], g, width, height) == Fits;
    assert CellCheck(Down, p[2], g, width, height) == Fits;
    assert CellCheck(Down, p[3], g, width, height) == Panics;
    FirstMisfitDecides(Down, p, g, width, height, 3);
  }

  /** Rotation is unchecked: the J piece, turned three times right after it
      spawns, has a cell two rows above the grid, and the next downward
      check indexes row -1 (on any pit at least seven columns wide and two
      rows high whose cells below the piece are free). */
  lemma RotatedJPanicsOnDrop(g: seq<seq<bool>>, width: nat, height: nat)
    requires Shaped(g, width, height) && width >= 7 && height >= 2
    requires !g[0][3] && !g[1][2] && !g[1][3]
    ensures PieceCheck(Down, Rotated(Rotated(Rotated(Spawn(J)))), g, width, height) == Panics
  {
    JTurnedThrice();
    TwoAboveGridPanics(g, width, height);
  }

  /** Locking a piece that lies inside the grid and clearing afterwards
      keeps the grid's dimensions and leaves no full row. */
  lemma LandingLeavesNoFullRow(g: seq<seq<bool>>, p: seq<Cell>, width: nat, height: nat)
    requires Shaped(g, width, height) && width > 0
    ensures Shaped(Cleared(Lock(g, p), width), width, height)
    ensures forall y :: 0 <= y < height ==> !IsFull(Cleared(Lock(g, p), width)[y])
  {
    ClearedShape(Lock(g, p), width, height);
    ClearedHasNoFullRow(Lock(g, p), width, height);
  }

  /** Column-major order of the listing: by column, then by row. */
  predicate ColumnMajorBefore(a: Cell, b: Cell)
  {
    a.x < b.x || (a.x == b.x && a.y < b.y)
  }

  /** The playing field: `height` rows of `width` cells and the falling
      piece. */
  class Pit {
    const width: nat
    const height: nat
    var spots: seq<seq<bool>>
    const activePiece: array<Cell>

    ghost predicate Valid()
      reads this
    {
      activePiece.Length == PieceSize && Shaped(spots, width, height)
    }

    /** The cells of the falling piece. */
    ghost function Piece(): seq<Cell>
      reads activePiece
    {
      activePiece[..]
    }

    /** A pit with an empty grid and a freshly spawned piece of the chosen
        shape. */
    constructor (width: nat, height: nat, shape: Shape)
      ensures Valid() && fresh(activePiece)
      ensures this.width == width && this.height == height
      ensures Shaped(spots, width, height)
      ensures forall y, x :: 0 <= y < height && 0 <= x < width ==> !spots[y][x]
      ensures Piece() == Spawn(shape)
    {
      this.width := width;
      this.height := height;
      var rows: seq<seq<bool>> := [];
      for y := 0 to height
        invariant rows == EmptyGrid(width, y)
      {
        var row: seq<bool> := [];
        for x := 0 to width
          invariant row == Blank(x)
        {
          row := row + [false];
        }
        rows := rows + [row];
      }
      spots := rows;
      activePiece := new Cell[PieceSize];
      new;
      GenerateNewPiece(shape);
    }

    /** Checks a move to the right without making it. */
    method CanMoveRight() returns (v: Check)
      requires Valid()
      ensures v == PieceCheck(Right, Piece(), spots, width, height)
    {
      ghost var piece := Piece();
      for i := 0 to PieceSize
        invariant forall j :: 0 <= j < i ==> CellCheck(Right, piece[j], spots, width, height) == Fits
      {
        var c := activePiece[i];
        assert c == piece[i];
        if c.x + 1 >= width {
          FirstMisfitDecides(Right, piece, spots, width, height, i);
          return Blocked;
        }
        if c.y < 0 {
          continue;
        }
        if !InGrid(spots, Cell(c.x + 1, c.y)) {
          FirstMisfitDecides(Right, piece, spots, width, height, i);
          return Panics;
        }
        if spots[c.y][c.x + 1] {
          FirstMisfitDecides(Right, piece, spots, width, height, i);
          return Blocked;
        }
      }
      return Fits;
    }

    /** Shifts every cell one column to the right. */
    method MoveRight()
      requires Valid()
      modifies activePiece
      ensures Piece() == Moved(Right, old(Piece()))
    {
      for i := 0 to PieceSize
        invariant forall j :: 0 <= j < i ==> activePiece[j] == Target(Right, old(activePiece[j]))
        invariant forall j :: i <= j < PieceSize ==> activePiece[j] == old(activePiece[j])
      {
        activePiece[i] := Cell(activePiece[i].x + 1, activePiece[i].y);
      }
    }

    /** Moves the piece one column right if the move fits, and otherwise
        leaves it where it is. */
    method MovePieceRight() returns (v: Check)
      requires Valid()
      modifies activePiece
      ensures v == PieceCheck(Right, old(Piece()), spots, width, height)
      ensures Piece() == if v == Fits then Moved(Right, old(Piece())) else old(Piece())
    {
      v := CanMoveRight();
      if v == Fits {
        MoveRight();
      }
    }

    /** Checks a move to the left without making it. */
    method CanMoveLeft() returns (v: Check)
      requires Valid()
      ensures v == PieceCheck(Left, Piece(), spots, width, height)
    {
      ghost var piece := Piece();
      for i := 0 to PieceSize
        invariant forall j :: 0 <= j < i ==> CellCheck(Left, piece[j], spots, width, height) == Fits
      {
        var c := activePiece[i];
        assert c == piece[i];
        if c.x <= 0 {
          FirstMisfitDecides(Left, piece, spots, width, height, i);
          return Blocked;
        }
        if c.y < 0 {
          continue;
        }
        if !InGrid(spots, Cell(c.x - 1, c.y)) {
          FirstMisfitDecides(Left, piece, spots, width, height, i);
          return Panics;
        }
        if spots[c.y][c.x - 1] {
          FirstMisfitDecides(Left, piece, spots, width, height, i);
          return Blocked;
        }
      }
      return Fits;
    }

    /** Shifts every cell one column to the left. */
    method MoveLeft()
      requires Valid()
      modifies activePiece
      ensures Piece() == Moved(Left, old(Piece()))
    {
      for i := 0 to PieceSize
        invariant forall j :: 0 <= j < i ==> activePiece[j] == Target(Left, old(activePiece[j]))
        invariant forall j :: i <= j < PieceSize ==> activePiece[j] == old(activePiece[j])
      {
        activePiece[i] := Cell(activePiece[i].x - 1, activePiece[i].y);
      }
    }

    /** Moves the piece one column left if the move fits, and otherwise
        leaves it where it is. */
    method MovePieceLeft() returns (v: Check)
      requires Valid()
      modifies activePiece
      ensures v == PieceCheck(Left, old(Piece()), spots, width, height)
      ensures Piece() == if v == Fits then Moved(Left, old(Piece())) else old(Piece())
    {
      v := CanMoveLeft();
      if v == Fits {
        MoveLeft();
      }
    }

    /** Checks a move down without making it. */
    method CanMoveDown() returns (v: Check)
      requires Valid()
      ensures v == PieceCheck(Down, Piece(), spots, width, height)
    {
      ghost var piece := Piece();
      for i := 0 to PieceSize
        invariant forall j :: 0 <= j < i ==> CellCheck(Down, piece[j], spots, width, height) == Fits
      {
        var c := activePiece[i];
        assert c == piece[i];
        if c.y + 1 >= height {
          FirstMisfitDecides(Down, piece, spots, width, height, i);
          return Blocked;
        }
        if !InGrid(spots, Cell(c.x, c.y + 1)) {
          FirstMisfitDecides(Down, piece, spots, width, height, i);
          return Panics;
        }
        if spots[c.y + 1][c.x] {
          FirstMisfitDecides(Down, piece, spots, width, height, i);
          return Blocked;
        }
      }
      return Fits;
    }

    /** Shifts every cell one row down. */
    method MoveDown()
      requires Valid()
      modifies activePiece
      ensures Piece() == Moved(Down, old(Piece()))
    {
      for i := 0 to PieceSize
        invariant forall j :: 0 <= j < i ==> activePiece[j] == Target(Down, old(activePiece[j]))
        invariant forall j :: i <= j < PieceSize ==> activePiece[j] == old(activePiece[j])
      {
        activePiece[i] := Cell(activePiece[i].x, activePiece[i].y + 1);
      }
    }

    /** One step of gravity: the piece falls a row if it can; otherwise it
        is locked into the grid, the full rows are cleared and a piece of
        shape `next` spawns, with no check that its cells are free. */
    method MovePieceDown(next: Shape) returns (r: Drop)
      requires Valid()
      modifies this, activePiece
      ensures Valid()
      ensures var check := PieceCheck(Down, old(Piece()), old(spots), width, height);
              var locked := LockablePrefix(old(spots), old(Piece()));
        && (check == Fits ==>
              r == Fell && Piece() == Moved(Down, old(Piece())) && spots == old(spots))
        && (check == Panics ==>
              r == Crashed && Piece() == old(Piece()) && spots == old(spots))
        && (check == Blocked && locked < PieceSize ==>
              r == Crashed && Piece() == old(Piece()) && spots == Lock(old(spots), old(Piece())[..locked]))
        && (check == Blocked && locked == PieceSize ==>
              && r == Landed(|FullRows(Lock(old(spots), old(Piece())))|)
              && spots == Cleared(Lock(old(spots), old(Piece())), width)
              && Piece() == Spawn(next))
      ensures r.Landed? && width > 0 ==> forall y :: 0 <= y < height ==> !IsFull(spots[y])
    {
      var check := CanMoveDown();
      if check == Fits {
        MoveDown();
        return Fell;
      }
      if check == Panics {
        return Crashed;
      }
      ghost var piece := Piece();
      var ok := SolidifyPiece();
      if !ok {
        return Crashed;
      }
      assert piece[..PieceSize] == piece;
      ghost var locked := spots;
      assert locked == Lock(old(spots), piece);
      var cleared := ClearCompletedLines();
      assert spots == Cleared(locked, width);
      if width > 0 {
        ClearedHasNoFullRow(locked, width, height);
      }
      GenerateNewPiece(next);
      return Landed(cleared);
    }

    /** Turns the piece clockwise about its first cell, with no check of the
        walls or of the grid. */
    method RotatePiece()
      requires Valid()
      modifies activePiece
      ensures Piece() == Rotated(old(Piece()))
    {
      var origin := activePiece[0];
      for i := 0 to PieceSize
        invariant activePiece[0] == origin
        invariant forall j :: 0 <= j < i ==> activePiece[j] == RotateCell(origin, old(activePiece[j]))
        invariant forall j :: i <= j < PieceSize ==> activePiece[j] == old(activePiece[j])
      {
        activePiece[i] := RotateCell(origin, activePiece[i]);
      }
    }

    /** Writes the piece's cells into the grid in order. It stops with
        `ok == false` at the first cell outside the grid (the source's
        index panic), after having written the cells before it. */
    method SolidifyPiece() returns (ok: bool)
      requires Valid()
      modifies this
      ensures Valid()
      ensures ok == (LockablePrefix(old(spots), Piece()) == PieceSize)
      ensures spots == Lock(old(spots), Piece()[..LockablePrefix(old(spots), Piece())])
    {
      ghost var piece := Piece();
      ghost var before := spots;
      ghost var k := LockablePrefix(before, piece);
      LockNothing(before);
      assert piece[..0] == [];
      for i := 0 to PieceSize
        invariant Shaped(spots, width, height)
        invariant i <= k
        invariant spots == Lock(before, piece[..i])
      {
        var c := activePiece[i];
        assert c == piece[i];
        assert InGrid(spots, c) <==> InGrid(before, c);
        if !InGrid(spots, c) {
          assert i == k;
          return false;
        }
        LockOneMore(before, piece, i);
        spots := spots[c.y := spots[c.y][c.x := true]];
      }
      assert piece[..PieceSize] == piece;
      return true;
    }

    /** The indices of the full rows, from the top row down; the scan of a
        row stops at its first free cell. */
    method CompletedRows() returns (completed: seq<nat>)
      ensures completed == FullRows(spots)
    {
      completed := [];
      for index := 0 to |spots|
        invariant completed == FullRows(spots[..index])
      {
        var row := spots[index];
        var complete := true;
        for x := 0 to |row|
          invariant forall j :: 0 <= j < x ==> row[j]
        {
          if !row[x] {
            complete := false;
            break;
          }
        }
        assert complete == IsFull(row);
        assert spots[..index + 1][..index] == spots[..index];
        if complete {
          completed := completed + [index];
        }
      }
      assert spots[..|spots|] == spots;
    }

    /** Removes the rows listed in `completed`, the full rows from the top
        down, starting with the lowest one, so that the indices still to be
        removed stay valid. */
    method RemoveCompletedRows(completed: seq<nat>)
      requires completed == FullRows(spots)
      modifies this
      ensures spots == Kept(old(spots))
    {
      ghost var before := spots;
      NothingRemoved(before);
      for t := |completed| downto 0
        invariant spots == RemovedFrom(before, t)
      {
        RemoveFullRow(before, t);
        spots := spots[..completed[t]] + spots[completed[t] + 1..];
      }
      AllFullRowsRemoved(before);
    }

    /** Puts `n` free rows on top of the grid, one at a time. */
    method PrependBlankRows(n: nat)
      modifies this
      ensures spots == EmptyGrid(width, n) + old(spots)
    {
      ghost var below := spots;
      assert EmptyGrid(width, 0) + below == below;
      for j := 0 to n
        invariant spots == EmptyGrid(width, j) + below
      {
        PrependBlank(width, j);
        spots := [Blank(width)] + spots;
      }
    }

    /** Removes every full row and puts one free row at the top for each. */
    method ClearCompletedLines() returns (cleared: nat)
      requires Valid()
      modifies this
      ensures Valid()
      ensures spots == Cleared(old(spots), width)
      ensures cleared == |FullRows(old(spots))|
    {
      var completed := CompletedRows();
      ClearedShape(spots, width, height);
      RemoveCompletedRows(completed);
      PrependBlankRows(|completed|);
      return |completed|;
    }

    /** Replaces the piece by a new one of shape `shape` at its spawn cells. */
    method GenerateNewPiece(shape: Shape)
      requires Valid()
      modifies activePiece
      ensures Piece() == Spawn(shape)
    {
      var cells := Spawn(shape);
      forall i | 0 <= i < PieceSize {
        activePiece[i] := cells[i];
      }
    }

    /** The occupied cells, column by column and top to bottom within a
        column. */
    method GetSolidBlocks() returns (blocks: seq<Cell>)
      requires Valid()
      ensures forall c :: c in blocks <==> Solid(spots, c)
      ensures forall i, j :: 0 <= i < j < |blocks| ==> ColumnMajorBefore(blocks[i], blocks[j])
    {
      blocks := [];
      for x := 0 to width
        invariant forall c :: c in blocks <==> Solid(spots, c) && c.x < x
        invariant forall i, j :: 0 <= i < j < |blocks| ==> ColumnMajorBefore(blocks[i], blocks[j])
        invariant forall i :: 0 <= i < |blocks| ==> blocks[i].x < x
      {
        for y := 0 to height
          invariant forall c :: c in blocks <==> Solid(spots, c) && (c.x < x || (c.x == x && c.y < y))
          invariant forall i, j :: 0 <= i < j < |blocks| ==> ColumnMajorBefore(blocks[i], blocks[j])
          invariant forall i :: 0 <= i < |blocks| ==> ColumnMajorBefore(blocks[i], Cell(x, y))
        {
          if spots[y][x] {
            blocks := blocks + [Cell(x, y)];
          }
        }
      }
    }
  }
}
