/** The pit's occupancy grid as a value: a sequence of rows, each a sequence
    of booleans (`true` = occupied). These functions specify what locking a
    piece and clearing completed rows do to it. */
module Grid {
  import opened Tetromino

  /** The grid has `height` rows of `width` cells each. */
  predicate Shaped(g: seq<seq<bool>>, width: int, height: int)
  {
    |g| == height && forall y :: 0 <= y < |g| ==> |g[y]| == width
  }

  /** `c` can be used to index `g` (row first, then column). */
  predicate InGrid(g: seq<seq<bool>>, c: Cell)
  {
    0 <= c.y < |g| && 0 <= c.x < |g[c.y]|
  }

  /** `c` is inside the grid and occupied. */
  predicate Solid(g: seq<seq<bool>>, c: Cell)
  {
    InGrid(g, c) && g[c.y][c.x]
  }

  /** A row of `width` free cells. */
  function Blank(width: nat): seq<bool>
  {
    seq(width, _ => false)
  }

  /** `n` free rows of `width` cells. */
  function EmptyGrid(width: nat, n: nat): seq<seq<bool>>
  {
    seq(n, _ => Blank(width))
  }

  /** One more free row on top of `n` free rows. */
  lemma PrependBlank(width: nat, n: nat)
    ensures [Blank(width)] + EmptyGrid(width, n) == EmptyGrid(width, n + 1)
  {
  }

  /** Every cell of the row is occupied. */
  predicate IsFull(row: seq<bool>)
  {
    forall x :: 0 <= x < |row| ==> row[x]
  }

  /** The rows that are not full, in their original order. */
  function Kept(g: seq<seq<bool>>): (rows: seq<seq<bool>>)
    ensures |rows| <= |g|
    ensures forall row {:trigger row in rows} :: row in rows <==> row in g && !IsFull(row)
  {
    if g == [] then []
    else
      assert g == g[..|g| - 1] + [g[|g| - 1]];
      Kept(g[..|g| - 1]) + (if IsFull(g[|g| - 1]) then [] else [g[|g| - 1]])
  }

  /** The indices of the full rows, from the top row down. */
  function FullRows(g: seq<seq<bool>>): (rows: seq<nat>)
    ensures forall i, j :: 0 <= i < j < |rows| ==> rows[i] < rows[j]
    ensures forall y: nat {:trigger y in rows} :: y in rows <==> y < |g| && IsFull(g[y])
    ensures |rows| + |Kept(g)| == |g|
  {
    if g == [] then []
    else
      var prefix := FullRows(g[..|g| - 1]);
      assert forall i :: 0 <= i < |prefix| ==> prefix[i] in prefix;
      prefix + (if IsFull(g[|g| - 1]) then [|g| - 1] else [])
  }

  /** The grid after the full rows are removed: one free row at the top per
      removed row, then the remaining rows. */
  function Cleared(g: seq<seq<bool>>, width: nat): (r: seq<seq<bool>>)
    ensures |r| == |g|
  {
    EmptyGrid(width, |g| - |Kept(g)|) + Kept(g)
  }

  /** The grid with every cell of `cells` that lies inside it set. */
  function Lock(g: seq<seq<bool>>, cells: seq<Cell>): (r: seq<seq<bool>>)
    ensures |r| == |g| && forall y :: 0 <= y < |g| ==> |r[y]| == |g[y]|
    ensures forall c :: c in cells && InGrid(g, c) ==> r[c.y][c.x]
    ensures forall c :: InGrid(g, c) && c !in cells ==> r[c.y][c.x] == g[c.y][c.x]
  {
    seq(|g|, y requires 0 <= y < |g| =>
      seq(|g[y]|, x requires 0 <= x < |g[y]| => g[y][x] || Cell(x, y) in cells))
  }

  /** How many leading cells of `cells` lie inside the grid. */
  function LockablePrefix(g: seq<seq<bool>>, cells: seq<Cell>): (k: nat)
    ensures k <= |cells|
    ensures forall i :: 0 <= i < k ==> InGrid(g, cells[i])
    ensures k < |cells| ==> !InGrid(g, cells[k])
  {
    if cells == [] || !InGrid(g, cells[0]) then 0
    else 1 + LockablePrefix(g, cells[1..])
  }

  /** Locking no cell changes nothing. */
  lemma LockNothing(g: seq<seq<bool>>)
    ensures Lock(g, []) == g
  {
    var r := Lock(g, []);
    forall y | 0 <= y < |g|
      ensures r[y] == g[y]
    {
    }
  }

  /** Locking one more cell of the prefix sets just that cell. */
  lemma LockOneMore(g: seq<seq<bool>>, cells: seq<Cell>, i: nat)
    requires i < |cells| && InGrid(g, cells[i])
    ensures var before := Lock(g, cells[..i]);
      Lock(g, cells[..i + 1]) == before[cells[i].y := before[cells[i].y][cells[i].x := true]]
  {
    var before := Lock(g, cells[..i]);
    var after := Lock(g, cells[..i + 1]);
    var c := cells[i];
    var expected := before[c.y := before[c.y][c.x := true]];
    assert cells[..i + 1] == cells[..i] + [c];
    forall y | 0 <= y < |g|
      ensures after[y] == expected[y]
    {
      forall x | 0 <= x < |g[y]|
        ensures after[y][x] == expected[y][x]
      {
        assert Cell(x, y) in cells[..i + 1] <==> Cell(x, y) in cells[..i] || Cell(x, y) == c;
      }
    }
  }

  /** Filtering the full rows out distributes over concatenation, so the
      surviving rows keep their relative order. */
  lemma {:induction false} KeptAppend(a: seq<seq<bool>>, b: seq<seq<bool>>)
    ensures Kept(a + b) == Kept(a) + Kept(b)
    decreases |b|
  {
    if b == [] {
      assert a + b == a;
    } else {
      var b' := b[..|b| - 1];
      assert (a + b)[..|a + b| - 1] == a + b';
      KeptAppend(a, b');
    }
  }

  /** A grid without a full row loses no row. */
  lemma {:induction false} KeptWithoutFullRows(g: seq<seq<bool>>)
    requires forall y :: 0 <= y < |g| ==> !IsFull(g[y])
    ensures Kept(g) == g
  {
    if g != [] {
      KeptWithoutFullRows(g[..|g| - 1]);
      assert g == g[..|g| - 1] + [g[|g| - 1]];
    }
  }

  /** Clearing keeps the grid's dimensions. */
  lemma ClearedShape(g: seq<seq<bool>>, width: nat, height: nat)
    requires Shaped(g, width, height)
    ensures Shaped(Cleared(g, width), width, height)
  {
    var kept := Kept(g);
    forall y | 0 <= y < |kept|
      ensures |kept[y]| == width
    {
      assert kept[y] in kept;
    }
  }

  /** After clearing, the grid has no full row (a grid of width 0 is the
      exception: its empty rows are full). */
  lemma ClearedHasNoFullRow(g: seq<seq<bool>>, width: nat, height: nat)
    requires Shaped(g, width, height) && width > 0
    ensures forall y :: 0 <= y < height ==> !IsFull(Cleared(g, width)[y])
  {
    var r := Cleared(g, width);
    var n := |g| - |Kept(g)|;
    forall y | 0 <= y < height
      ensures !IsFull(r[y])
    {
      if y < n {
        assert r[y] == Blank(width) && !r[y][0];
      } else {
        assert r[y] == Kept(g)[y - n] && r[y] in Kept(g);
      }
    }
  }

  /** The cleared grid starts with one free row per full row of the old grid
      and ends with the old grid's other rows, in order. */
  lemma ClearedLayout(g: seq<seq<bool>>, width: nat)
    ensures var r := Cleared(g, width);
      && (forall y :: 0 <= y < |FullRows(g)| ==> r[y] == Blank(width))
      && r[|FullRows(g)|..] == Kept(g)
  {
  }

  /** Clearing a grid without a full row changes nothing. */
  lemma ClearedIsNoop(g: seq<seq<bool>>, width: nat)
    requires forall y :: 0 <= y < |g| ==> !IsFull(g[y])
    ensures Cleared(g, width) == g
  {
    KeptWithoutFullRows(g);
    assert EmptyGrid(width, 0) + g == g;
  }

  /** The last row index that is still to be removed after the `t` topmost
      full rows: the `t`-th full row, or the grid's length. */
  function Edge(g: seq<seq<bool>>, t: nat): (e: nat)
    requires t <= |FullRows(g)|
    ensures e <= |g|
  {
    var rows := FullRows(g);
    if t == |rows| then |g| else assert rows[t] in rows; rows[t]
  }

  /** No row above the first full row, or strictly between two consecutive
      full rows, is full. */
  lemma NoFullRowBefore(g: seq<seq<bool>>, t: nat, lo: nat)
    requires t <= |FullRows(g)|
    requires t == 0 ==> lo == 0
    requires t > 0 ==> lo == FullRows(g)[t - 1] + 1
    ensures lo <= Edge(g, t)
    ensures forall y :: lo <= y < Edge(g, t) ==> !IsFull(g[y])
  {
    var rows := FullRows(g);
    if t > 0 {
      assert rows[t - 1] in rows;
    }
    forall y | lo <= y < Edge(g, t)
      ensures !IsFull(g[y])
    {
      forall u | 0 <= u < |rows|
        ensures rows[u] != y
      {
        if u < t {
          assert rows[u] <= rows[t - 1];
        } else {
          assert rows[t] <= rows[u];
        }
      }
      assert y !in rows;
    }
  }

  /** Dropping a full row that is followed by non-full rows only. */
  lemma {:induction false} KeptDropsFullRow(g: seq<seq<bool>>, c: nat, e: nat)
    requires c < e <= |g| && IsFull(g[c])
    requires forall y :: c < y < e ==> !IsFull(g[y])
    ensures Kept(g[c..]) == g[c + 1..e] + Kept(g[e..])
  {
    var between := g[c + 1..e];
    assert g[c..] == [g[c]] + (between + g[e..]);
    KeptAppend([g[c]], between + g[e..]);
    KeptAppend(between, g[e..]);
    assert Kept([g[c]]) == [] by {
      assert [g[c]] == [] + [g[c]];
    }
    KeptWithoutFullRows(between);
  }

  /** The grid once every full row from the `t`-th one on (counting from
      the top) has been removed. */
  function RemovedFrom(g: seq<seq<bool>>, t: nat): seq<seq<bool>>
    requires t <= |FullRows(g)|
  {
    g[..Edge(g, t)] + Kept(g[Edge(g, t)..])
  }

  /** Deleting row `c` from the first `e` rows of `g` followed by `tail`. */
  lemma DropRow<T>(g: seq<T>, e: nat, tail: seq<T>, c: nat)
    requires c < e <= |g|
    ensures var s := g[..e] + tail;
      s[..c] + s[c + 1..] == g[..c] + (g[c + 1..e] + tail)
  {
    var s := g[..e] + tail;
    assert s[..c] == g[..c];
    assert s[c + 1..] == g[c + 1..e] + tail;
  }

  /** Removing the `t`-th full row (counting from the top) from a grid whose
      lower full rows are already gone leaves a grid whose full rows from
      the `t`-th on are gone. */
  lemma RemoveFullRow(g: seq<seq<bool>>, t: nat)
    requires t < |FullRows(g)|
    ensures var c := FullRows(g)[t];
      var before := RemovedFrom(g, t + 1);
      c < |before| && before[..c] + before[c + 1..] == RemovedFrom(g, t)
  {
    var rows := FullRows(g);
    var c := rows[t];
    var e := Edge(g, t + 1);
    assert rows[t] in rows;
    NoFullRowBefore(g, t + 1, c + 1);
    KeptDropsFullRow(g, c, e);
    assert Edge(g, t) == c;
    DropRow(g, e, Kept(g[e..]), c);
  }

  /** Before any removal the grid is whole. */
  lemma NothingRemoved(g: seq<seq<bool>>)
    ensures RemovedFrom(g, |FullRows(g)|) == g
  {
    assert g[..|g|] == g;
  }

  /** Rows above the first full row survive as they are. */
  lemma {:induction false} KeptAfterFreePrefix(g: seq<seq<bool>>, e: nat)
    requires e <= |g|
    requires forall y :: 0 <= y < e ==> !IsFull(g[y])
    ensures g[..e] + Kept(g[e..]) == Kept(g)
  {
    var front, back := g[..e], g[e..];
    assert Kept(front) == front by {
      forall y | 0 <= y < |front|
        ensures !IsFull(front[y])
      {
        assert front[y] == g[y];
      }
      KeptWithoutFullRows(front);
    }
    assert Kept(g) == Kept(front) + Kept(back) by {
      assert g == front + back;
      KeptAppend(front, back);
    }
  }

  /** Once every full row is removed, what remains is `Kept(g)`. */
  lemma AllFullRowsRemoved(g: seq<seq<bool>>)
    ensures RemovedFrom(g, 0) == Kept(g)
  {
    NoFullRowBefore(g, 0, 0);
    KeptAfterFreePrefix(g, Edge(g, 0));
  }
}
