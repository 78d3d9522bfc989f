/**
 * The rules of the engine (game.js) on values: the playing field as a
 * sequence of rows, collision, the landing row of a hard drop, locking a
 * piece, the row scan that clears full rows, and the score table.
 *
 * Row 0 is the top of the field; a larger row index is further down. A
 * field cell holds 0 when empty and a colour 1..6 when a block is locked.
 */
module Rules {
  import Shapes

  type Grid = seq<seq<int>>

  /** Every row has `w` cells. */
  predicate WellFormed(g: Grid, w: nat)
  {
    forall r | 0 <= r < |g| :: |g[r]| == w
  }

  /** Two fields with the same shape and the same cells are the same field. */
  lemma CellwiseEqual(g: Grid, h: Grid)
    requires |g| == |h|
    requires forall r | 0 <= r < |g| :: |g[r]| == |h[r]|
    requires forall r, c | 0 <= r < |g| && 0 <= c < |g[r]| :: g[r][c] == h[r][c]
    ensures g == h
  {
    forall r | 0 <= r < |g|
      ensures g[r] == h[r]
    {
    }
  }

  /** Every cell is empty or one of the six colours. */
  predicate Colours(g: Grid)
  {
    forall r, c | 0 <= r < |g| && 0 <= c < |g[r]| :: 0 <= g[r][c] <= 6
  }

  // ---------------------------------------------------------------------
  // Collision

  /**
   * Field position (r, c) cannot hold a block: below the bottom row, left
   * or right of the field, or already locked. Rows above the field (r < 0)
   * are excluded by the requires, as the engine never asks about them.
   */
  predicate Blocked(g: Grid, w: nat, r: int, c: int)
    requires WellFormed(g, w) && 0 <= r
  {
    r > |g| - 1 || c >= w || c < 0 || g[r][c] > 0
  }

  /** A piece with image `img` anchored at (x, y) collides. */
  predicate Hits(g: Grid, w: nat, img: seq<int>, x: int, y: int)
    requires WellFormed(g, w) && 0 <= y
  {
    exists i, j | 0 <= i < 4 && 0 <= j < 4 :: Shapes.Occupies(img, i, j) && Blocked(g, w, i + y, j + x)
  }

  /** The same test phrased over the four listed cells of the image. */
  lemma HitsByIndex(g: Grid, w: nat, img: seq<int>, x: int, y: int)
    requires WellFormed(g, w) && 0 <= y && Shapes.ImageOk(img)
    ensures Hits(g, w, img, x, y) <==>
      exists k | 0 <= k < 4 :: Blocked(g, w, img[k] / 4 + y, img[k] % 4 + x)
  {
    if Hits(g, w, img, x, y) {
      HitsAtIndex(g, w, img, x, y);
    }
    if exists k | 0 <= k < 4 :: Blocked(g, w, img[k] / 4 + y, img[k] % 4 + x) {
      var k :| 0 <= k < 4 && Blocked(g, w, img[k] / 4 + y, img[k] % 4 + x);
      IndexHits(g, w, img, x, y, k);
    }
  }

  /** A collision happens at one of the listed cells. */
  lemma HitsAtIndex(g: Grid, w: nat, img: seq<int>, x: int, y: int)
    requires WellFormed(g, w) && 0 <= y && Shapes.ImageOk(img)
    requires Hits(g, w, img, x, y)
    ensures exists k | 0 <= k < 4 :: Blocked(g, w, img[k] / 4 + y, img[k] % 4 + x)
  {
    var i, j :| 0 <= i < 4 && 0 <= j < 4 && Shapes.Occupies(img, i, j) && Blocked(g, w, i + y, j + x);
    var cell := i * 4 + j;
    assert cell in img;
    var k :| 0 <= k < |img| && img[k] == cell;
    BoxIndex(i, j);
    assert img[k] / 4 + y == i + y && img[k] % 4 + x == j + x;
    assert Blocked(g, w, img[k] / 4 + y, img[k] % 4 + x);
  }

  /** Box index i * 4 + j gives back its row i and its column j. */
  lemma BoxIndex(i: int, j: int)
    requires 0 <= i < 4 && 0 <= j < 4
    ensures (i * 4 + j) / 4 == i && (i * 4 + j) % 4 == j
  {
    if i == 0 { } else if i == 1 { } else if i == 2 { } else { }
  }

  /** A blocked listed cell is a collision. */
  lemma IndexHits(g: Grid, w: nat, img: seq<int>, x: int, y: int, k: int)
    requires WellFormed(g, w) && 0 <= y && Shapes.ImageOk(img) && 0 <= k < 4
    requires Blocked(g, w, img[k] / 4 + y, img[k] % 4 + x)
    ensures Hits(g, w, img, x, y)
  {
    var i, j := img[k] / 4, img[k] % 4;
    assert Shapes.Occupies(img, i, j);
  }

  /** Each occupied cell of a piece that does not collide is an empty field cell. */
  lemma FreeCell(g: Grid, w: nat, img: seq<int>, x: int, y: int, i: int, j: int)
    requires WellFormed(g, w) && 0 <= y && !Hits(g, w, img, x, y)
    requires 0 <= i < 4 && 0 <= j < 4 && Shapes.Occupies(img, i, j)
    ensures 0 <= i + y < |g| && 0 <= j + x < w && g[i + y][j + x] <= 0
  {
    assert !Blocked(g, w, i + y, j + x);
  }

  /**
   * The first piece fits: on an empty field at least 4 rows high and 7
   * columns wide, the first rotation of every family does not collide at
   * the spawn position (3, 0).
   */
  lemma FirstSpawnFree(g: Grid, w: nat, kind: nat)
    requires WellFormed(g, w) && 4 <= |g| && 7 <= w && kind < 7
    requires forall r, c | 0 <= r < |g| && 0 <= c < w :: g[r][c] == 0
    ensures !Hits(g, w, Shapes.Figures[kind][0], 3, 0)
  {
    forall r, c | 0 <= r < 4 && 3 <= c < 7
      ensures !Blocked(g, w, r, c)
    {
      assert g[r][c] == 0;
    }
  }

  /** A piece that does not collide lies at least partly inside the field. */
  lemma LegalAboveFloor(g: Grid, w: nat, img: seq<int>, x: int, y: int)
    requires WellFormed(g, w) && 0 <= y && Shapes.ImageOk(img)
    requires !Hits(g, w, img, x, y)
    ensures y < |g|
  {
    var i, j := img[0] / 4, img[0] % 4;
    assert Shapes.Occupies(img, i, j);
  }

  /**
   * The row where a hard drop from row y stops: the piece does not collide
   * there and collides one row further down.
   */
  function LandingRow(g: Grid, w: nat, img: seq<int>, x: int, y: int): (r: int)
    requires WellFormed(g, w) && 0 <= y && Shapes.ImageOk(img)
    requires !Hits(g, w, img, x, y)
    ensures y <= r < |g|
    ensures !Hits(g, w, img, x, r) && Hits(g, w, img, x, r + 1)
    ensures FreeRows(g, w, img, x, y, r)
    decreases |g| - y
  {
    LegalAboveFloor(g, w, img, x, y);
    if Hits(g, w, img, x, y + 1) then y else LandingRow(g, w, img, x, y + 1)
  }

  /** No row from a to b (inclusive) makes the piece collide. */
  predicate FreeRows(g: Grid, w: nat, img: seq<int>, x: int, a: int, b: int)
    requires WellFormed(g, w) && 0 <= a
    decreases b - a
  {
    b < a || (!Hits(g, w, img, x, a) && FreeRows(g, w, img, x, a + 1, b))
  }

  /** A free run of rows a..b followed by a free row b + 1 is a free run a..b+1. */
  lemma {:induction false} FreeRowsExtend(g: Grid, w: nat, img: seq<int>, x: int, a: int, b: int)
    requires WellFormed(g, w) && 0 <= a && a <= b + 1
    requires FreeRows(g, w, img, x, a, b) && !Hits(g, w, img, x, b + 1)
    ensures FreeRows(g, w, img, x, a, b + 1)
    decreases b - a
  {
    if a <= b {
      FreeRowsExtend(g, w, img, x, a + 1, b);
    }
  }

  /** Every row of a free run is free. */
  lemma {:induction false} FreeRowsHas(g: Grid, w: nat, img: seq<int>, x: int, a: int, b: int, r: int)
    requires WellFormed(g, w) && 0 <= a <= r <= b
    requires FreeRows(g, w, img, x, a, b)
    ensures !Hits(g, w, img, x, r)
    decreases r - a
  {
    if a < r {
      FreeRowsHas(g, w, img, x, a + 1, b, r);
    }
  }

  /** One step of the fall: a free row below a free run extends it, and lies inside the field. */
  lemma FallStep(g: Grid, w: nat, img: seq<int>, x: int, a: int, y: int)
    requires WellFormed(g, w) && 0 <= a <= y && Shapes.ImageOk(img)
    requires FreeRows(g, w, img, x, a, y - 1) && !Hits(g, w, img, x, y)
    ensures y < |g| && FreeRows(g, w, img, x, a, y)
  {
    LegalAboveFloor(g, w, img, x, y);
    FreeRowsExtend(g, w, img, x, a, y - 1);
  }

  /** The end of the fall: a free run ended by a collision ends at the landing row. */
  lemma FallStop(g: Grid, w: nat, img: seq<int>, x: int, a: int, r: int)
    requires WellFormed(g, w) && 0 <= a <= r && Shapes.ImageOk(img)
    requires FreeRows(g, w, img, x, a, r) && Hits(g, w, img, x, r + 1)
    ensures !Hits(g, w, img, x, r) && LandingRow(g, w, img, x, a) == r
  {
    FreeRowsHas(g, w, img, x, a, r, r);
    LandingRowIs(g, w, img, x, a, r);
  }

  /**
   * The landing row is the first stop on the way down: every row from the
   * start to the landing row is free, so the piece passes through them.
   */
  lemma LandingRowFirst(g: Grid, w: nat, img: seq<int>, x: int, y: int)
    requires WellFormed(g, w) && 0 <= y && Shapes.ImageOk(img)
    requires !Hits(g, w, img, x, y)
    ensures forall y' | y <= y' <= LandingRow(g, w, img, x, y) :: !Hits(g, w, img, x, y')
  {
    var r := LandingRow(g, w, img, x, y);
    forall y' | y <= y' <= r
      ensures !Hits(g, w, img, x, y')
    {
      FreeRowsHas(g, w, img, x, y, r, y');
    }
  }

  /**
   * The landing row is characterised by the fall: when the rows y..r are
   * free and row r + 1 is not, a hard drop from y stops at r.
   */
  lemma {:induction false} LandingRowIs(g: Grid, w: nat, img: seq<int>, x: int, y: int, r: int)
    requires WellFormed(g, w) && 0 <= y <= r && Shapes.ImageOk(img)
    requires FreeRows(g, w, img, x, y, r) && Hits(g, w, img, x, r + 1)
    ensures !Hits(g, w, img, x, y) && LandingRow(g, w, img, x, y) == r
    decreases r - y
  {
    if y < r {
      LandingRowIs(g, w, img, x, y + 1, r);
    }
  }

  // ---------------------------------------------------------------------
  // Horizontal extent of an image and the wall kick

  /** Some cell of column j of the box is occupied. */
  predicate ColumnUsed(img: seq<int>, j: int)
  {
    exists i | 0 <= i < 4 :: Shapes.Occupies(img, i, j)
  }

  /** The leftmost used column from column j on, or 4 when there is none. */
  function MinColFrom(img: seq<int>, j: nat): (m: int)
    requires j <= 4
    ensures j <= m <= 4 && (m == 4 || ColumnUsed(img, m))
    ensures forall i, j' | 0 <= i < 4 && j <= j' < 4 && Shapes.Occupies(img, i, j') :: m <= j'
    decreases 4 - j
  {
    if j == 4 then 4 else if ColumnUsed(img, j) then j else MinColFrom(img, j + 1)
  }

  /** The rightmost used column up to column j, or 0 when there is none. */
  function MaxColFrom(img: seq<int>, j: int): (m: int)
    requires -1 <= j < 4
    ensures 0 <= m && (m <= j || m == 0) && (m == 0 || ColumnUsed(img, m))
    ensures forall i, j' | 0 <= i < 4 && 0 <= j' <= j && Shapes.Occupies(img, i, j') :: j' <= m
    decreases j + 1
  {
    if j < 0 then 0 else if ColumnUsed(img, j) then j else MaxColFrom(img, j - 1)
  }

  /**
   * The leftmost occupied column of the box: 4 when nothing is occupied,
   * as the engine starts its scan with minX = 4.
   */
  function MinCol(img: seq<int>): int
  {
    MinColFrom(img, 0)
  }

  /** The rightmost occupied column, 0 when nothing is occupied (maxX starts at 0). */
  function MaxCol(img: seq<int>): int
  {
    MaxColFrom(img, 3)
  }

  /**
   * Bounds a scan over the box ends with: used columns (or the start values
   * 4 and 0) that enclose every occupied cell are MinCol and MaxCol.
   */
  lemma ScannedBounds(img: seq<int>, minX: int, maxX: int)
    requires 0 <= maxX <= 3 && 0 <= minX <= 4
    requires minX == 4 || ColumnUsed(img, minX)
    requires maxX == 0 || ColumnUsed(img, maxX)
    requires forall i, j | 0 <= i < 4 && 0 <= j < 4 && Shapes.Occupies(img, i, j) :: minX <= j <= maxX
    ensures minX == MinCol(img) && maxX == MaxCol(img)
  {
    var lo, hi := MinCol(img), MaxCol(img);
    if minX < 4 {
      var i0 :| 0 <= i0 < 4 && Shapes.Occupies(img, i0, minX);
    }
    if lo < 4 {
      var i1 :| 0 <= i1 < 4 && Shapes.Occupies(img, i1, lo);
    }
    if maxX > 0 {
      var i2 :| 0 <= i2 < 4 && Shapes.Occupies(img, i2, maxX);
    }
    if hi > 0 {
      var i3 :| 0 <= i3 < 4 && Shapes.Occupies(img, i3, hi);
    }
  }

  /** The width getFigureWidth reports. */
  function FigureWidth(img: seq<int>): int
  {
    MaxCol(img) - MinCol(img) + 1
  }

  /** A well-formed image occupies columns MinCol..MaxCol, so it is 1 to 4 wide. */
  lemma FigureWidthBounds(img: seq<int>)
    requires Shapes.ImageOk(img)
    ensures 0 <= MinCol(img) <= MaxCol(img) <= 3
    ensures 1 <= FigureWidth(img) <= 4
  {
    assert Shapes.Occupies(img, img[0] / 4, img[0] % 4);
  }

  /**
   * The anchor column after the wall kick of rotate(): moved left until
   * x + fw <= w, then moved right until x >= 0. It compares the anchor
   * plus the width, not the rightmost occupied column, with the field width.
   */
  function Kick(x: int, fw: int, w: int): (k: int)
    ensures 0 <= k
    ensures fw <= w ==> k + fw <= w
    ensures 0 <= x && x + fw <= w ==> k == x
    ensures k != x ==> (x + fw > w && k == w - fw) || (x < 0 && k == 0) || (x + fw > w && w - fw < 0 && k == 0)
    ensures w < fw ==> k == 0
  {
    var shifted := if x + fw > w then w - fw else x;
    if shifted < 0 then 0 else shifted
  }

  // ---------------------------------------------------------------------
  // Locking a piece

  /** Field position (r, c) is covered by the piece `img` anchored at (x, y). */
  predicate Covers(img: seq<int>, x: int, y: int, r: int, c: int)
  {
    0 <= r - y < 4 && 0 <= c - x < 4 && Shapes.Occupies(img, r - y, c - x)
  }

  /** The field after the piece is written into it with colour `color`. */
  function Placed(g: Grid, img: seq<int>, x: int, y: int, color: int): (p: Grid)
    ensures |p| == |g| && forall r | 0 <= r < |g| :: |p[r]| == |g[r]|
  {
    seq(|g|, r requires 0 <= r < |g| =>
      seq(|g[r]|, c requires 0 <= c < |g[r]| =>
        if Covers(img, x, y, r, c) then color else g[r][c]))
  }

  /**
   * Locking a legal piece writes its colour into exactly the four cells
   * (img[k] / 4 + y, img[k] % 4 + x), all of which were empty, and changes
   * no other cell.
   */
  lemma PlacedExactlyImage(g: Grid, w: nat, img: seq<int>, x: int, y: int, color: int)
    requires WellFormed(g, w) && Colours(g) && 0 <= y && Shapes.ImageOk(img)
    requires !Hits(g, w, img, x, y)
    ensures forall k | 0 <= k < 4 ::
      var r, c := img[k] / 4 + y, img[k] % 4 + x;
      0 <= r < |g| && 0 <= c < w && g[r][c] == 0 && Placed(g, img, x, y, color)[r][c] == color
    ensures forall r, c | 0 <= r < |g| && 0 <= c < w && Placed(g, img, x, y, color)[r][c] != g[r][c] ::
      exists k | 0 <= k < 4 :: r == img[k] / 4 + y && c == img[k] % 4 + x
  {
    forall k | 0 <= k < 4
      ensures var r, c := img[k] / 4 + y, img[k] % 4 + x;
        0 <= r < |g| && 0 <= c < w && g[r][c] == 0 && Placed(g, img, x, y, color)[r][c] == color
    {
      PlacedWritesCell(g, w, img, x, y, color, k);
    }
    forall r, c | 0 <= r < |g| && 0 <= c < w && Placed(g, img, x, y, color)[r][c] != g[r][c]
      ensures exists k | 0 <= k < 4 :: r == img[k] / 4 + y && c == img[k] % 4 + x
    {
      PlacedOnlyCovered(g, img, x, y, color, r, c);
    }
  }

  /** The cell of the k-th listed index was empty and receives the colour. */
  lemma PlacedWritesCell(g: Grid, w: nat, img: seq<int>, x: int, y: int, color: int, k: int)
    requires WellFormed(g, w) && Colours(g) && 0 <= y && Shapes.ImageOk(img) && 0 <= k < 4
    requires !Hits(g, w, img, x, y)
    ensures var r, c := img[k] / 4 + y, img[k] % 4 + x;
      0 <= r < |g| && 0 <= c < w && g[r][c] == 0 && Placed(g, img, x, y, color)[r][c] == color
  {
    var i, j := img[k] / 4, img[k] % 4;
    assert Shapes.Occupies(img, i, j);
    assert !Blocked(g, w, i + y, j + x);
    assert Covers(img, x, y, i + y, j + x);
  }

  /** A cell that locking changes is the cell of one of the listed indices. */
  lemma PlacedOnlyCovered(g: Grid, img: seq<int>, x: int, y: int, color: int, r: int, c: int)
    requires 0 <= r < |g| && 0 <= c < |g[r]|
    requires Placed(g, img, x, y, color)[r][c] != g[r][c]
    ensures exists k | 0 <= k < |img| :: r == img[k] / 4 + y && c == img[k] % 4 + x
  {
    assert Covers(img, x, y, r, c);
    var k :| 0 <= k < |img| && img[k] == (r - y) * 4 + (c - x);
    assert img[k] / 4 == r - y && img[k] % 4 == c - x;
  }

  /** Writing a colour 1..6 keeps every cell empty or coloured. */
  lemma PlacedColours(g: Grid, img: seq<int>, x: int, y: int, color: int)
    requires Colours(g) && 1 <= color <= 6
    ensures Colours(Placed(g, img, x, y, color))
  {
  }

  // ---------------------------------------------------------------------
  // Clearing full rows

  /** A row with no empty cell. */
  predicate IsFull(row: seq<int>)
  {
    forall c | 0 <= c < |row| :: row[c] != 0
  }

  /** The number of empty cells of a row, as breakLines counts them. */
  function ZeroCount(row: seq<int>): nat
  {
    if |row| == 0 then 0
    else ZeroCount(row[..|row| - 1]) + (if row[|row| - 1] == 0 then 1 else 0)
  }

  lemma {:induction false} ZeroCountFull(row: seq<int>)
    ensures ZeroCount(row) == 0 <==> IsFull(row)
  {
    if |row| > 0 {
      ZeroCountFull(row[..|row| - 1]);
    }
  }

  /**
   * One compaction step of breakLines for full row i: rows 1..i-1 move
   * down into rows 2..i; rows 0 and 1 and the rows below i stay.
   */
  function ShiftDown(g: Grid, i: nat): Grid
    requires i < |g|
  {
    seq(|g|, r requires 0 <= r < |g| => if 2 <= r <= i then g[r - 1] else g[r])
  }

  /**
   * The row scan of breakLines from row i on, with the rows cleared so far
   * in `acc`: returns the final field and all cleared row indices.
   */
  function Scan(g: Grid, i: nat, acc: seq<int>): (Grid, seq<int>)
    decreases |g| - i
  {
    if i >= |g| then (g, acc)
    else if IsFull(g[i]) then Scan(ShiftDown(g, i), i + 1, acc + [i])
    else Scan(g, i + 1, acc)
  }

  /** The full rows of g, in increasing order, from row i on. */
  function FullRowsFrom(g: Grid, i: nat): seq<int>
    decreases |g| - i
  {
    if i >= |g| then []
    else (if IsFull(g[i]) then [i] else []) + FullRowsFrom(g, i + 1)
  }

  /** The field after breakLines' row scan. */
  function Cleared(g: Grid): Grid
  {
    Scan(g, 1, []).0
  }

  /** Rows from i on are all that FullRowsFrom looks at. */
  lemma {:induction false} FullRowsAgree(g: Grid, h: Grid, i: nat)
    requires |g| == |h|
    requires forall r | i <= r < |g| :: g[r] == h[r]
    ensures FullRowsFrom(g, i) == FullRowsFrom(h, i)
    decreases |g| - i
  {
    if i < |g| {
      FullRowsAgree(g, h, i + 1);
      assert g[i] == h[i];
      assert FullRowsFrom(g, i) == (if IsFull(g[i]) then [i] else []) + FullRowsFrom(g, i + 1);
      assert FullRowsFrom(h, i) == (if IsFull(h[i]) then [i] else []) + FullRowsFrom(h, i + 1);
    }
  }

  /**
   * The rows breakLines clears are exactly the rows of the field it starts
   * from that are full, in increasing order: compaction at row i touches
   * only rows up to i, so each row is still the original one when reached.
   */
  lemma {:induction false} ScanClearsFullRows(g: Grid, i: nat, acc: seq<int>)
    ensures Scan(g, i, acc).1 == acc + FullRowsFrom(g, i)
    decreases |g| - i
  {
    if i < |g| {
      var rest := FullRowsFrom(g, i + 1);
      if IsFull(g[i]) {
        var h := ShiftDown(g, i);
        assert Scan(g, i, acc) == Scan(h, i + 1, acc + [i]);
        assert FullRowsFrom(g, i) == [i] + rest;
        ScanClearsFullRows(h, i + 1, acc + [i]);
        assert forall r | i + 1 <= r < |g| :: h[r] == g[r];
        FullRowsAgree(h, g, i + 1);
        assert acc + [i] + rest == acc + ([i] + rest);
      } else {
        assert Scan(g, i, acc) == Scan(g, i + 1, acc);
        assert FullRowsFrom(g, i) == [] + rest;
        ScanClearsFullRows(g, i + 1, acc);
        assert acc + rest == acc + ([] + rest);
      }
    }
  }

  /**
   * FullRowsFrom lists, strictly increasing, exactly the full rows with
   * index in [i, |g|).
   */
  lemma FullRowsFromExact(g: Grid, i: nat)
    ensures forall a, b | 0 <= a < b < |FullRowsFrom(g, i)| :: FullRowsFrom(g, i)[a] < FullRowsFrom(g, i)[b]
    ensures forall k | 0 <= k < |FullRowsFrom(g, i)| ::
      i <= FullRowsFrom(g, i)[k] < |g| && IsFull(g[FullRowsFrom(g, i)[k]])
    ensures forall r | i <= r < |g| && IsFull(g[r]) :: r in FullRowsFrom(g, i)
  {
    FullRowsSound(g, i);
    FullRowsComplete(g, i);
  }

  /** Each listed row is a full row from i on, and the list is increasing. */
  lemma {:induction false} FullRowsSound(g: Grid, i: nat)
    ensures forall k | 0 <= k < |FullRowsFrom(g, i)| ::
      i <= FullRowsFrom(g, i)[k] < |g| && IsFull(g[FullRowsFrom(g, i)[k]])
    ensures forall a, b | 0 <= a < b < |FullRowsFrom(g, i)| :: FullRowsFrom(g, i)[a] < FullRowsFrom(g, i)[b]
    decreases |g| - i
  {
    if i < |g| {
      FullRowsSound(g, i + 1);
      var rest := FullRowsFrom(g, i + 1);
      if IsFull(g[i]) {
        assert FullRowsFrom(g, i) == [i] + rest;
      } else {
        assert FullRowsFrom(g, i) == [] + rest;
      }
    }
  }

  /** Every full row from i on is listed. */
  lemma {:induction false} FullRowsComplete(g: Grid, i: nat)
    ensures forall r | i <= r < |g| && IsFull(g[r]) :: r in FullRowsFrom(g, i)
    decreases |g| - i
  {
    if i < |g| {
      FullRowsComplete(g, i + 1);
      var rest := FullRowsFrom(g, i + 1);
      if IsFull(g[i]) {
        assert FullRowsFrom(g, i) == [i] + rest;
      } else {
        assert FullRowsFrom(g, i) == [] + rest;
      }
    }
  }

  /** The scan keeps the number of rows and the width of each. */
  lemma {:induction false} ScanShape(g: Grid, w: nat, i: nat, acc: seq<int>)
    requires WellFormed(g, w)
    ensures |Scan(g, i, acc).0| == |g| && WellFormed(Scan(g, i, acc).0, w)
    decreases |g| - i
  {
    if i < |g| {
      if IsFull(g[i]) {
        ScanShape(ShiftDown(g, i), w, i + 1, acc + [i]);
      } else {
        ScanShape(g, w, i + 1, acc);
      }
    }
  }

  /** The scan keeps the number of rows. */
  lemma {:induction false} ScanLength(g: Grid, i: nat, acc: seq<int>)
    ensures |Scan(g, i, acc).0| == |g|
    decreases |g| - i
  {
    if i < |g| {
      if IsFull(g[i]) {
        ScanLength(ShiftDown(g, i), i + 1, acc + [i]);
      } else {
        ScanLength(g, i + 1, acc);
      }
    }
  }

  /** Rows 0 and 1 are never written: a full row 1 is counted but stays. */
  lemma {:induction false} ScanKeepsTopRows(g: Grid, i: nat, acc: seq<int>)
    requires 1 <= i
    ensures |Scan(g, i, acc).0| == |g|
    ensures forall r | 0 <= r < |g| && r <= 1 :: Scan(g, i, acc).0[r] == g[r]
    decreases |g| - i
  {
    ScanLength(g, i, acc);
    if i < |g| {
      if IsFull(g[i]) {
        ScanKeepsTopRows(ShiftDown(g, i), i + 1, acc + [i]);
      } else {
        ScanKeepsTopRows(g, i + 1, acc);
      }
    }
  }

  /**
   * Rows below the last cleared row are unchanged, and a scan that clears
   * nothing leaves the whole field as it was.
   */
  lemma {:induction false} ScanKeepsRowsBelow(g: Grid, i: nat, acc: seq<int>)
    ensures FullRowsFrom(g, i) == [] ==> Scan(g, i, acc).0 == g
    ensures |Scan(g, i, acc).0| == |g|
    ensures FullRowsFrom(g, i) != [] ==>
      forall r | 0 <= r < |g| && FullRowsFrom(g, i)[|FullRowsFrom(g, i)| - 1] < r :: Scan(g, i, acc).0[r] == g[r]
    decreases |g| - i
  {
    if i < |g| {
      var rows, rest := FullRowsFrom(g, i), FullRowsFrom(g, i + 1);
      if IsFull(g[i]) {
        var h := ShiftDown(g, i);
        assert Scan(g, i, acc) == Scan(h, i + 1, acc + [i]);
        assert rows == [i] + rest;
        ScanKeepsRowsBelow(h, i + 1, acc + [i]);
        assert forall r | i + 1 <= r < |g| :: h[r] == g[r];
        FullRowsAgree(h, g, i + 1);
        if rest != [] {
          FullRowsFromExact(g, i + 1);
          assert i + 1 <= rest[|rest| - 1];
          assert rows[|rows| - 1] == rest[|rest| - 1];
        }
      } else {
        assert Scan(g, i, acc) == Scan(g, i + 1, acc);
        assert rows == rest;
        ScanKeepsRowsBelow(g, i + 1, acc);
      }
    }
  }

  /** The scan only moves rows, so cells stay empty or coloured. */
  lemma {:induction false} ScanColours(g: Grid, i: nat, acc: seq<int>)
    requires Colours(g)
    ensures Colours(Scan(g, i, acc).0)
    decreases |g| - i
  {
    if i < |g| {
      if IsFull(g[i]) {
        ScanColours(ShiftDown(g, i), i + 1, acc + [i]);
      } else {
        ScanColours(g, i + 1, acc);
      }
    }
  }

  /** A scan over rows none of which is full changes nothing. */
  lemma {:induction false} ScanNoFullRows(g: Grid, i: nat, acc: seq<int>)
    requires forall r | i <= r < |g| :: !IsFull(g[r])
    ensures Scan(g, i, acc) == (g, acc)
    decreases |g| - i
  {
    if i < |g| {
      ScanNoFullRows(g, i + 1, acc);
    }
  }

  /**
   * Clearing a single full row r >= 2: rows 1..r-1 move down by one row,
   * row 0 and the rows below r are unchanged.
   */
  lemma SingleRowCleared(g: Grid, r: nat)
    requires 2 <= r < |g| && IsFull(g[r])
    requires forall r' | 1 <= r' < |g| && r' != r :: !IsFull(g[r'])
    ensures Scan(g, 1, []) == (ShiftDown(g, r), [r])
    ensures Cleared(g)[0] == g[0] && Cleared(g)[1] == g[1]
    ensures forall k | 2 <= k <= r :: Cleared(g)[k] == g[k - 1]
    ensures forall k | r < k < |g| :: Cleared(g)[k] == g[k]
  {
    SingleRowScan(g, r);
    var h := ShiftDown(g, r);
    assert Cleared(g) == h;
    assert h[0] == g[0] && h[1] == g[1];
  }

  /**
   * A full row 1 is counted as cleared but stays in place: the compaction
   * loop stops before row 1, so the field keeps its full row.
   */
  lemma RowOneStays(g: Grid)
    requires 2 <= |g| && IsFull(g[1])
    requires forall r | 2 <= r < |g| :: !IsFull(g[r])
    ensures Scan(g, 1, []) == (g, [1])
    ensures IsFull(Cleared(g)[1])
  {
    assert ShiftDown(g, 1) == g;
    assert [] + [1] == [1];
    assert Scan(g, 1, []) == Scan(g, 2, [1]);
    ScanNoFullRows(g, 2, [1]);
  }

  /** The scan of a field whose only full row (from row 1 on) is r >= 2. */
  lemma SingleRowScan(g: Grid, r: nat)
    requires 2 <= r < |g| && IsFull(g[r])
    requires forall r' | 1 <= r' < |g| && r' != r :: !IsFull(g[r'])
    ensures Scan(g, 1, []) == (ShiftDown(g, r), [r])
  {
    ScanNoFullRowsUpTo(g, 1, r);
    var h := ShiftDown(g, r);
    assert [] + [r] == [r];
    assert Scan(g, r, []) == Scan(h, r + 1, [r]);
    forall k | r < k < |g|
      ensures !IsFull(h[k])
    {
      assert h[k] == g[k];
    }
    ScanNoFullRows(h, r + 1, [r]);
  }

  /**
   * A full row 1 blocks every spawn: the first rotation of each family has
   * a cell in row 1 of its box, and a new piece spawns at (3, 0).
   */
  lemma FullRowOneBlocksSpawn(g: Grid, w: nat, kind: nat)
    requires WellFormed(g, w) && 2 <= |g| && Colours(g) && IsFull(g[1]) && kind < 7
    ensures Hits(g, w, Shapes.Figures[kind][0], 3, 0)
  {
    var img := Shapes.Figures[kind][0];
    var j := if kind == 1 then 0 else if kind == 2 || kind == 4 then 2 else 1;
    assert Shapes.Occupies(img, 1, j);
    assert Blocked(g, w, 1, j + 3);
  }

  /** Scanning rows i..r-1, none of them full, only moves the scan on. */
  lemma {:induction false} ScanNoFullRowsUpTo(g: Grid, i: nat, r: nat)
    requires i <= r < |g|
    requires forall r' | i <= r' < r :: !IsFull(g[r'])
    ensures Scan(g, i, []) == Scan(g, r, [])
    decreases r - i
  {
    if i < r {
      ScanNoFullRowsUpTo(g, i + 1, r);
    }
  }

  // ---------------------------------------------------------------------
  // Score and level

  /** The award for clearing `lines` rows in one lock, before doubling. */
  function BaseScore(lines: nat): nat
  {
    if lines == 1 then 100
    else if lines == 2 then 300
    else if lines == 3 then 700
    else if lines == 4 then 1500
    else 0
  }

  /** The percentage chance of a double score at a level. */
  function DoubleChance(level: int): (p: int)
    ensures p <= 50 && p <= 10 + (level - 1) * 3
    ensures p == 50 || p == 10 + (level - 1) * 3
    ensures level >= 1 ==> 10 <= p <= 50
  {
    if 10 + (level - 1) * 3 < 50 then 10 + (level - 1) * 3 else 50
  }

  /** A lock doubles its award: a hard drop that clears a row and wins the draw in 1..100. */
  predicate Doubled(isSpaceDrop: bool, lines: nat, level: int, draw: int)
  {
    isSpaceDrop && lines > 0 && draw <= DoubleChance(level)
  }

  /** The score a lock adds. */
  function Award(lines: nat, doubled: bool): nat
  {
    if doubled then BaseScore(lines) * 2 else BaseScore(lines)
  }

  /** The level for a cumulative score: floor(score / 2000) + 1. */
  function LevelFor(score: nat): (l: nat)
    ensures l >= 1
    ensures (l - 1) * 2000 <= score < l * 2000
  {
    score / 2000 + 1
  }

  /** A higher score never gives a lower level. */
  lemma LevelMonotone(s1: nat, s2: nat)
    requires s1 <= s2
    ensures LevelFor(s1) <= LevelFor(s2)
  {
    var l1, l2 := LevelFor(s1), LevelFor(s2);
  }

  /** More rows in one lock earn strictly more, and more than their count times 100 so. */
  lemma BaseScoreIncreasing(a: nat, b: nat)
    requires 1 <= a < b <= 4
    ensures BaseScore(a) < BaseScore(b)
    ensures BaseScore(b) > b * 100
  {
  }

  /** The award table: 0, 100, 300, 700, 1500, doubled on a winning draw. */
  lemma AwardTable(lines: nat, doubled: bool)
    ensures Award(lines, false) == [0, 100, 300, 700, 1500][if lines <= 4 then lines else 0]
    ensures Award(lines, true) == 2 * Award(lines, false)
  {
  }

  /** A certain draw (chance at least the draw) on a one-row hard drop earns 200. */
  lemma DoubledSingleRow(level: int, draw: int)
    requires draw <= DoubleChance(level)
    ensures Award(1, Doubled(true, 1, level, draw)) == 200
  {
  }

  /** The levels for scores 0, 1999, 2000 and 4001. */
  lemma LevelExamples()
    ensures LevelFor(0) == 1 && LevelFor(1999) == 1 && LevelFor(2000) == 2 && LevelFor(4001) == 3
  {
  }

  // ---------------------------------------------------------------------
  // Line-clear effects

  /** The presentation record breakLines keeps for each cleared row. */
  datatype Effect = Effect(line: int, effectTimer: int, glowAlpha: int, isDouble: bool)

  /** One effect per cleared row, in order, with timer 30, glow 255 and the roll's outcome. */
  function Effects(lines: seq<int>, doubled: bool): seq<Effect>
  {
    seq(|lines|, k requires 0 <= k < |lines| => Effect(lines[k], 30, 255, doubled))
  }
}
