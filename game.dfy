/**
 * The game-state engine of game.js: the active piece (class Figure) and the
 * engine (class Tetris) that owns the field, the active and the next piece,
 * the score, the level and the game-over flag.
 *
 * Math.random becomes method parameters: a piece type `t` in 0..6 and a
 * colour `c` in 1..6 for every piece created, and the double-score draw
 * `draw` in 1..100 for a hard drop.
 */
module Game {
  import Shapes
  import Rules

  /** The active (or the next) piece. */
  class Figure {
    var x: int
    var y: int
    /** Index of the family in Shapes.Figures (`type` in game.js). */
    var kind: nat
    var color: int
    var rotation: nat

    ghost predicate Valid()
      reads this`kind, this`rotation, this`color
    {
      kind < 7 && rotation < Shapes.Rotations(kind) && 1 <= color <= 6
    }

    /** A new piece at (x0, y0) of family t and colour c, in rotation 0. */
    constructor (x0: int, y0: int, t: nat, c: int)
      requires t < 7 && 1 <= c <= 6
      ensures Valid()
      ensures x == x0 && y == y0 && kind == t && color == c && rotation == 0
    {
      x, y := x0, y0;
      kind, color := t, c;
      rotation := 0;
    }

    /** The four occupied cell indices of the current rotation. */
    function Image(): (img: seq<int>)
      reads this`kind, this`rotation
      requires kind < 7 && rotation < Shapes.Rotations(kind)
      ensures Shapes.ImageOk(img)
      ensures img == Shapes.Figures[kind][rotation]
    {
      Shapes.FiguresOk();
      Shapes.RotationsOfTable(kind);
      Shapes.Figures[kind][rotation]
    }

    /** Advances to the next rotation state of the family, wrapping around. */
    method Rotate()
      requires Valid()
      modifies this`rotation
      ensures Valid()
      ensures rotation == Shapes.NextRotation(kind, old(rotation))
    {
      Shapes.RotationsOfTable(kind);
      rotation := (rotation + 1) % |Shapes.Figures[kind]|;
    }
  }

  /** The engine. */
  class Tetris {
    const height: nat
    const width: nat
    /** field[r, c] is 0 when empty and the colour 1..6 of a locked block otherwise. */
    const field: array2<int>
    var score: nat
    var level: nat
    var state: string
    var figure: Figure?
    var nextFigure: Figure?
    var gameOver: bool
    var highScore: int
    var doubleScoreEffect: bool
    var doubleScoreTimer: int
    var clearedLineEffects: seq<Rules.Effect>

    /** The field as a sequence of rows. */
    ghost function Grid(): (g: Rules.Grid)
      reads field
      ensures |g| == field.Length0
      ensures forall r | 0 <= r < |g| :: |g[r]| == field.Length1
      ensures forall r, c | 0 <= r < field.Length0 && 0 <= c < field.Length1 :: g[r][c] == field[r, c]
    {
      seq(field.Length0, r requires 0 <= r < field.Length0 reads field =>
        seq(field.Length1, c requires 0 <= c < field.Length1 reads field => field[r, c]))
    }

    /** The field has the engine's dimensions. */
    ghost predicate FieldOk()
    {
      field.Length0 == height && field.Length1 == width
    }

    /**
     * Each piece has a family, a rotation of it and a colour; the next piece
     * waits at (3, 0) in rotation 0 and is not the active one.
     */
    ghost predicate PiecesOk()
      reads this`figure, this`nextFigure, figure, nextFigure
    {
      (figure != null ==> figure.Valid())
      && (nextFigure != null ==>
            nextFigure.Valid() && nextFigure.x == 3 && nextFigure.y == 0 && nextFigure.rotation == 0)
      && (figure != null && nextFigure != null ==> figure != nextFigure)
    }

    /** The level is the one the score earns. */
    ghost predicate ScoreOk()
      reads this`score, this`level
    {
      level == Rules.LevelFor(score)
    }

    ghost predicate Valid()
      reads this`figure, this`nextFigure, this`score, this`level, figure, nextFigure
    {
      FieldOk() && PiecesOk() && ScoreOk()
    }

    /**
     * The active piece is in a position the engine may act on: inside the
     * field from row 0 down and not colliding.
     */
    ghost predicate Legal()
      reads this, field, figure
    {
      field.Length1 == width && figure != null && figure.Valid() && figure.y >= 0
      && !Rules.Hits(Grid(), width, figure.Image(), figure.x, figure.y)
    }

    /**
     * An empty height x width field with score 0 at level 1 and no piece.
     * `storedHighScore` is the value loadHighScore reads from persistent
     * storage (0 when there is none).
     */
    constructor (height: nat, width: nat, storedHighScore: int)
      ensures Valid() && fresh(field)
      ensures this.height == height && this.width == width
      ensures forall r, c | 0 <= r < height && 0 <= c < width :: field[r, c] == 0
      ensures score == 0 && level == 1 && state == "start" && !gameOver
      ensures figure == null && nextFigure == null
      ensures highScore == storedHighScore
      ensures !doubleScoreEffect && doubleScoreTimer == 0 && clearedLineEffects == []
    {
      this.height := height;
      this.width := width;
      field := new int[height, width]((r, c) => 0);
      score := 0;
      level := 1;
      state := "start";
      figure := null;
      nextFigure := null;
      gameOver := false;
      highScore := storedHighScore;
      doubleScoreEffect := false;
      doubleScoreTimer := 0;
      clearedLineEffects := [];
    }

    /**
     * The next piece becomes the active one (a first one of family t1 and
     * colour c1 is made when there is none yet), and a fresh next piece of
     * family t2 and colour c2 is made at (3, 0).
     */
    method NewFigure(t1: nat, c1: int, t2: nat, c2: int)
      requires Valid()
      requires t1 < 7 && 1 <= c1 <= 6 && t2 < 7 && 1 <= c2 <= 6
      modifies this
      ensures Valid()
      ensures figure != null && figure.x == 3 && figure.y == 0 && figure.rotation == 0
      ensures old(nextFigure) != null ==> figure == old(nextFigure)
      ensures old(nextFigure) == null ==> fresh(figure) && figure.kind == t1 && figure.color == c1
      ensures fresh(nextFigure) && nextFigure.kind == t2 && nextFigure.color == c2
      ensures score == old(score) && level == old(level) && gameOver == old(gameOver)
      ensures highScore == old(highScore) && state == old(state)
      ensures doubleScoreEffect == old(doubleScoreEffect) && doubleScoreTimer == old(doubleScoreTimer)
      ensures clearedLineEffects == old(clearedLineEffects)
    {
      if nextFigure == null {
        nextFigure := new Figure(3, 0, t1, c1);
      }
      figure := nextFigure;
      nextFigure := new Figure(3, 0, t2, c2);
    }

    /**
     * The collision test: true exactly when some occupied cell (i, j) of the
     * image lands below the bottom row, outside [0, width) or on a locked
     * cell. Rows above the field are not checked, so the piece must not
     * stand above row 0.
     */
    method Intersects() returns (hit: bool)
      requires field.Length0 == height && field.Length1 == width
      requires figure != null && figure.Valid() && figure.y >= 0
      ensures hit == Rules.Hits(Grid(), width, figure.Image(), figure.x, figure.y)
    {
      var img := figure.Image();
      for i := 0 to 4
        invariant forall i', j' | 0 <= i' < i && 0 <= j' < 4 ::
          !(Shapes.Occupies(img, i', j') && Rules.Blocked(Grid(), width, i' + figure.y, j' + figure.x))
      {
        for j := 0 to 4
          invariant forall i', j' | 0 <= i' < 4 && 0 <= j' < 4 && (i' < i || (i' == i && j' < j)) ::
            !(Shapes.Occupies(img, i', j') && Rules.Blocked(Grid(), width, i' + figure.y, j' + figure.x))
        {
          if Shapes.Occupies(img, i, j) {
            if i + figure.y > height - 1
              || j + figure.x >= width
              || j + figure.x < 0
              || field[i + figure.y, j + figure.x] > 0
            {
              assert Rules.Blocked(Grid(), width, i + figure.y, j + figure.x);
              return true;
            }
          }
        }
      }
      return false;
    }

    /**
     * The leftmost and rightmost occupied columns of the active piece's
     * box, scanned as goSide and getFigureWidth do (minX from 4, maxX from 0).
     */
    method ColumnBounds() returns (minX: int, maxX: int)
      requires figure != null && figure.Valid()
      ensures minX == Rules.MinCol(figure.Image()) && maxX == Rules.MaxCol(figure.Image())
    {
      var img := figure.Image();
      minX, maxX := 4, 0;
      for i := 0 to 4
        invariant 0 <= maxX <= 3 && 0 <= minX <= 4
        invariant minX == 4 || Rules.ColumnUsed(img, minX)
        invariant maxX == 0 || Rules.ColumnUsed(img, maxX)
        invariant forall i', j' | 0 <= i' < i && 0 <= j' < 4 && Shapes.Occupies(img, i', j') ::
          minX <= j' <= maxX
      {
        for j := 0 to 4
          invariant 0 <= maxX <= 3 && 0 <= minX <= 4
          invariant minX == 4 || Rules.ColumnUsed(img, minX)
          invariant maxX == 0 || Rules.ColumnUsed(img, maxX)
          invariant forall i', j' | 0 <= i' < 4 && 0 <= j' < 4 && (i' < i || (i' == i && j' < j))
                                    && Shapes.Occupies(img, i', j') ::
            minX <= j' <= maxX
        {
          if Shapes.Occupies(img, i, j) {
            minX := if minX < j then minX else j;
            maxX := if maxX > j then maxX else j;
          }
        }
      }
      Rules.ScannedBounds(img, minX, maxX);
    }

    /** getFigureWidth: rightmost minus leftmost occupied column, plus one. */
    method GetFigureWidth() returns (fw: int)
      requires figure != null && figure.Valid()
      ensures fw == Rules.FigureWidth(figure.Image())
      ensures 1 <= fw <= 4
    {
      var minX, maxX := ColumnBounds();
      Rules.FigureWidthBounds(figure.Image());
      fw := maxX - minX + 1;
    }

    /**
     * Moves the piece dx columns: no move when its occupied columns would
     * leave [0, width), and the move is undone when the piece then collides.
     */
    method GoSide(dx: int)
      requires Valid() && figure != null && figure.y >= 0
      modifies figure`x
      ensures Valid()
      ensures var img, nx := figure.Image(), old(figure.x) + dx;
        var ok := 0 <= nx + Rules.MinCol(img) && nx + Rules.MaxCol(img) < width
                  && !Rules.Hits(Grid(), width, img, nx, figure.y);
        figure.x == if ok then nx else old(figure.x)
      ensures old(Legal()) ==> Legal()
    {
      ghost var g, img := Grid(), figure.Image();
      var oldX := figure.x;
      var newX := figure.x + dx;
      var minX, maxX := ColumnBounds();
      var actualLeft := newX + minX;
      var actualRight := newX + maxX;
      if actualLeft < 0 || actualRight >= width {
        return;
      }
      figure.x := newX;
      var hit := Intersects();
      assert hit == Rules.Hits(g, width, img, newX, figure.y);
      if hit {
        figure.x := oldX;
      }
      assert Grid() == g && figure.Image() == img;
    }

    /**
     * Rotates the piece, then kicks it horizontally: left while x plus the
     * rotated width exceeds the field width, then right while x < 0. When
     * the result collides, rotation and x are both restored.
     */
    /** The two shifting loops of rotate: push the piece left, then right, until it fits. */
    method KickInside(fw: int)
      requires figure != null
      modifies figure`x
      ensures figure.x == Rules.Kick(old(figure.x), fw, width)
    {
      ghost var x0 := figure.x;
      while figure.x + fw > width
        modifies figure`x
        invariant figure.x <= x0
        invariant figure.x == x0 || figure.x + fw >= width
        decreases figure.x + fw - width
      {
        figure.x := figure.x - 1;
      }
      ghost var shifted := figure.x;
      assert shifted == if x0 + fw > width then width - fw else x0;
      while figure.x < 0
        modifies figure`x
        invariant figure.x == shifted || shifted < figure.x <= 0
        decreases -figure.x
      {
        figure.x := figure.x + 1;
      }
    }

    method Rotate()
      requires Valid() && figure != null && figure.y >= 0
      modifies figure`x, figure`rotation
      ensures Valid()
      ensures var r := Shapes.NextRotation(figure.kind, old(figure.rotation));
        var img := Shapes.Figures[figure.kind][r];
        var k := Rules.Kick(old(figure.x), Rules.FigureWidth(img), width);
        if !Rules.Hits(Grid(), width, img, k, figure.y)
        then figure.rotation == r && figure.x == k
        else figure.rotation == old(figure.rotation) && figure.x == old(figure.x)
      ensures old(Legal()) ==> Legal()
    {
      ghost var g, y := Grid(), figure.y;
      ghost var oldImg := figure.Image();
      var oldRotation := figure.rotation;
      var oldX := figure.x;
      figure.Rotate();
      ghost var img := figure.Image();
      var fw := GetFigureWidth();
      KickInside(fw);
      var hit := Intersects();
      assert Grid() == g && figure.Image() == img && figure.y == y;
      if hit {
        figure.rotation := oldRotation;
        figure.x := oldX;
        assert figure.Image() == oldImg;
      }
      assert Grid() == g && figure.y == y;
    }

    /**
     * The first loop of freeze: writes the piece's colour into the cells it
     * occupies.
     */
    method Lock()
      requires Valid() && Legal()
      modifies field
      ensures Grid() == Rules.Placed(old(Grid()), figure.Image(), figure.x, figure.y, figure.color)
    {
      ghost var g := Grid();
      var img, x, y, color := figure.Image(), figure.x, figure.y, figure.color;
      for i := 0 to 4
        invariant forall r, c | 0 <= r < height && 0 <= c < width ::
          field[r, c] == if Rules.Covers(img, x, y, r, c) && r - y < i then color else g[r][c]
      {
        LockRow(g, img, x, y, color, i);
      }
      Rules.CellwiseEqual(Grid(), Rules.Placed(g, img, x, y, color));
    }

    /**
     * Row i of the box in freeze's double loop: writes `color` into the
     * cells of the field that row i of the piece covers.
     */
    method LockRow(ghost g: Rules.Grid, img: seq<int>, x: int, y: int, color: int, i: nat)
      requires FieldOk() && |g| == height && Rules.WellFormed(g, width) && 0 <= y && i < 4
      requires !Rules.Hits(g, width, img, x, y)
      requires forall r, c | 0 <= r < height && 0 <= c < width ::
        field[r, c] == if Rules.Covers(img, x, y, r, c) && r - y < i then color else g[r][c]
      modifies field
      ensures forall r, c | 0 <= r < height && 0 <= c < width ::
        field[r, c] == if Rules.Covers(img, x, y, r, c) && r - y < i + 1 then color else g[r][c]
    {
      for j := 0 to 4
        invariant forall r, c | 0 <= r < height && 0 <= c < width ::
          field[r, c] == if Rules.Covers(img, x, y, r, c) && (r - y < i || (r - y == i && c - x < j))
                         then color else g[r][c]
      {
        if Shapes.Occupies(img, i, j) {
          Rules.FreeCell(g, width, img, x, y, i, j);
          field[i + y, j + x] := color;
        }
      }
    }

    /** Counts the empty cells of row i, as the filter in breakLines does. */
    method ZerosInRow(i: nat) returns (zeros: nat)
      requires FieldOk() && i < height
      ensures zeros == Rules.ZeroCount(Grid()[i])
      ensures zeros == 0 <==> Rules.IsFull(Grid()[i])
    {
      ghost var row := Grid()[i];
      zeros := 0;
      for j := 0 to width
        invariant zeros == Rules.ZeroCount(row[..j])
      {
        assert row[..j + 1][..j] == row[..j];
        if field[i, j] == 0 {
          zeros := zeros + 1;
        }
      }
      assert row[..width] == row;
      Rules.ZeroCountFull(row);
    }

    /**
     * The compaction loop of breakLines for full row i: copies rows
     * i-1, ..., 1 into rows i, ..., 2, cell by cell, from the bottom up.
     * Row 1 keeps its contents.
     */
    method ShiftRows(i: nat)
      requires FieldOk() && 1 <= i < height
      modifies field
      ensures Grid() == Rules.ShiftDown(old(Grid()), i)
    {
      ghost var g := Grid();
      var i1 := i;
      while i1 > 1
        invariant 1 <= i1 <= i
        invariant forall r, c | 0 <= r < height && 0 <= c < width ::
          field[r, c] == if i1 < r <= i then g[r - 1][c] else g[r][c]
      {
        CopyRowDown(i1);
        i1 := i1 - 1;
      }
      Rules.CellwiseEqual(Grid(), Rules.ShiftDown(g, i));
    }

    /** The inner loop of the compaction: row i1 becomes a copy of row i1 - 1. */
    method CopyRowDown(i1: nat)
      requires FieldOk() && 1 <= i1 < height
      modifies field
      ensures forall r, c | 0 <= r < height && 0 <= c < width ::
        field[r, c] == if r == i1 then old(field[i1 - 1, c]) else old(field[r, c])
    {
      for j := 0 to width
        invariant forall r, c | 0 <= r < height && 0 <= c < width ::
          field[r, c] == if r == i1 && c < j then old(field[i1 - 1, c]) else old(field[r, c])
      {
        field[i1, j] := field[i1 - 1, j];
      }
    }

    /**
     * The row scan of breakLines: visits rows 1..height-1 top to bottom and
     * compacts at each full row. Returns the count and the indices of the
     * cleared rows.
     */
    method ClearFullRows() returns (lines: nat, clearedLines: seq<int>)
      requires FieldOk()
      modifies field
      ensures FieldOk()
      ensures lines == |clearedLines|
      ensures clearedLines == Rules.FullRowsFrom(old(Grid()), 1)
      ensures Grid() == Rules.Cleared(old(Grid()))
    {
      lines := 0;
      clearedLines := [];
      var i := 1;
      while i < height
        invariant 1 <= i && (i <= height || height == 0)
        invariant FieldOk()
        invariant lines == |clearedLines|
        invariant Rules.Scan(Grid(), i, clearedLines) == Rules.Scan(old(Grid()), 1, [])
      {
        var zeros := ZerosInRow(i);
        if zeros == 0 {
          lines := lines + 1;
          clearedLines := clearedLines + [i];
          ShiftRows(i);
        }
        i := i + 1;
      }
      Rules.ScanClearsFullRows(old(Grid()), 1, []);
    }

    /**
     * breakLines: clears the full rows, then rolls for a double score on a
     * hard drop, records one effect per cleared row, adds the award and
     * recomputes the level. Returns the cleared row indices.
     */
    method BreakLines(isSpaceDrop: bool, draw: int) returns (clearedLines: seq<int>)
      requires FieldOk() && ScoreOk() && 1 <= draw <= 100
      modifies field, this`score, this`level, this`clearedLineEffects, this`doubleScoreEffect, this`doubleScoreTimer
      ensures FieldOk() && ScoreOk()
      ensures clearedLines == Rules.FullRowsFrom(old(Grid()), 1)
      ensures Grid() == Rules.Cleared(old(Grid()))
      ensures var doubled := Rules.Doubled(isSpaceDrop, |clearedLines|, old(level), draw);
        && score == old(score) + Rules.Award(|clearedLines|, doubled)
        && clearedLineEffects == Rules.Effects(clearedLines, doubled)
        && (doubled ==> doubleScoreEffect && doubleScoreTimer == 30)
        && (!doubled ==> doubleScoreEffect == old(doubleScoreEffect) && doubleScoreTimer == old(doubleScoreTimer))
      ensures figure == old(figure) && nextFigure == old(nextFigure) && gameOver == old(gameOver)
      ensures highScore == old(highScore) && state == old(state)
    {
      var lines;
      lines, clearedLines := ClearFullRows();

      // the roll of a hard drop that cleared rows, against the level's chance
      var doubleScore := Rules.Doubled(isSpaceDrop, lines, level, draw);
      clearedLineEffects := Rules.Effects(clearedLines, doubleScore);

      var baseScore := Rules.BaseScore(lines);
      if doubleScore {
        score := score + baseScore * 2;
        doubleScoreEffect := true;
        doubleScoreTimer := 30;
      } else {
        score := score + baseScore;
      }

      level := score / 2000 + 1;
    }

    /** What a lock depends on in the state before it: everything but the piece's row. */
    ghost function Snap(): Snapshot
      reads this, field, figure, nextFigure
      requires figure != null && figure.Valid()
    {
      Snapshot(Grid(), figure.Image(), figure.x, figure.color, score, level,
               nextFigure, if nextFigure == null then 0 else nextFigure.kind,
               if nextFigure == null then 0 else nextFigure.color, gameOver,
               doubleScoreEffect, doubleScoreTimer, highScore, state)
    }

    /** The parts of the state a lock decides. */
    ghost function Observe(): Outcome
      reads this, field, figure, nextFigure
      requires figure != null && nextFigure != null
    {
      Outcome(Grid(), score, clearedLineEffects, doubleScoreEffect, doubleScoreTimer,
              figure.kind, figure.color, figure.x, figure.y, figure.rotation,
              nextFigure.kind, nextFigure.color, gameOver, highScore, state)
    }

    /**
     * The end of freeze: the next piece becomes the active one, a new next
     * piece is made, and the game is over when the new active piece
     * collides where it spawns.
     */
    method Spawn(t1: nat, c1: int, t2: nat, c2: int)
      requires Valid() && t1 < 7 && 1 <= c1 <= 6 && t2 < 7 && 1 <= c2 <= 6
      modifies this
      ensures Valid() && figure != null && nextFigure != null && fresh(nextFigure)
      ensures figure.x == 3 && figure.y == 0 && figure.rotation == 0
      ensures old(nextFigure) != null ==>
        figure == old(nextFigure) && figure.kind == old(nextFigure.kind) && figure.color == old(nextFigure.color)
      ensures old(nextFigure) == null ==> figure.kind == t1 && figure.color == c1
      ensures nextFigure.kind == t2 && nextFigure.color == c2
      ensures gameOver == (old(gameOver) || Rules.Hits(Grid(), width, figure.Image(), 3, 0))
      ensures score == old(score) && highScore == old(highScore) && state == old(state)
      ensures doubleScoreEffect == old(doubleScoreEffect) && doubleScoreTimer == old(doubleScoreTimer)
      ensures clearedLineEffects == old(clearedLineEffects)
      ensures !gameOver ==> Legal()
    {
      NewFigure(t1, c1, t2, c2);
      var hit := Intersects();
      if hit {
        gameOver := true;
      }
    }

    /**
     * freeze: locks the piece where it stands, clears full rows and scores
     * them, brings in the next piece and ends the game when it collides.
     */
    method Freeze(isSpaceDrop: bool, draw: int, t1: nat, c1: int, t2: nat, c2: int)
      requires Valid() && Legal()
      requires 1 <= draw <= 100 && t1 < 7 && 1 <= c1 <= 6 && t2 < 7 && 1 <= c2 <= 6
      modifies this, field
      ensures Valid() && figure != null && nextFigure != null && fresh(nextFigure)
      ensures Observe() == AfterLock(old(Snap()), old(figure.y), width, isSpaceDrop, draw, t1, c1, t2, c2)
      ensures old(nextFigure) != null ==> figure == old(nextFigure)
      ensures !gameOver ==> Legal()
    {
      ghost var b, row := Snap(), figure.y;
      Lock();
      assert Grid() == Rules.Placed(b.grid, b.image, b.x, row, b.color);
      var clearedLines := BreakLines(isSpaceDrop, draw);
      Spawn(t1, c1, t2, c2);
    }

    /**
     * goDown: moves the piece one row down, or, when it would collide
     * there, locks it where it is (not a hard drop, so never doubled).
     */
    method GoDown(t1: nat, c1: int, t2: nat, c2: int)
      requires Valid() && Legal()
      requires t1 < 7 && 1 <= c1 <= 6 && t2 < 7 && 1 <= c2 <= 6
      modifies this, field, figure`y
      ensures Valid() && figure != null
      ensures old(Rules.Hits(Grid(), width, figure.Image(), figure.x, figure.y + 1)) ==>
        nextFigure != null && Observe() == AfterLock(old(Snap()), old(figure.y), width, false, 1, t1, c1, t2, c2)
        && fresh(nextFigure)
      ensures !old(Rules.Hits(Grid(), width, figure.Image(), figure.x, figure.y + 1)) ==>
        unchanged(this, field) && figure.y == old(figure.y) + 1 && Legal()
      ensures !gameOver ==> Legal()
    {
      ghost var b := Snap();
      figure.y := figure.y + 1;
      var hit := Intersects();
      assert hit == Rules.Hits(b.grid, width, b.image, b.x, old(figure.y) + 1) by {
        assert Grid() == b.grid && figure.Image() == b.image && figure.x == b.x;
      }
      if hit {
        figure.y := figure.y - 1;
        assert Snap() == b;
        assert figure.y == old(figure.y);
        assert Legal();
        assert Valid();
        Freeze(false, 1, t1, c1, t2, c2);
      }
    }

    /**
     * The fall of goSpace: moves the piece down while it does not collide,
     * then back up one row, which leaves it at its landing row.
     */
    method Drop()
      requires Valid() && Legal()
      modifies figure`y
      ensures Valid() && Legal()
      ensures figure.y == Rules.LandingRow(Grid(), width, figure.Image(), figure.x, old(figure.y))
    {
      ghost var g, img, x, y0 := Grid(), figure.Image(), figure.x, figure.y;
      var hit := Intersects();
      while !hit
        modifies figure`y
        invariant y0 <= figure.y
        invariant hit == Rules.Hits(g, width, img, x, figure.y)
        invariant Rules.FreeRows(g, width, img, x, y0, figure.y - 1)
        decreases height - figure.y
      {
        Rules.FallStep(g, width, img, x, y0, figure.y);
        figure.y := figure.y + 1;
        hit := Intersects();
        assert Grid() == g && figure.Image() == img && figure.x == x;
      }
      figure.y := figure.y - 1;
      Rules.FallStop(g, width, img, x, y0, figure.y);
      assert Grid() == g && figure.Image() == img && figure.x == x;
    }

    /**
     * goSpace: the hard drop. The piece falls to its landing row and is
     * locked there, with the double-score roll enabled.
     */
    method GoSpace(draw: int, t1: nat, c1: int, t2: nat, c2: int)
      requires Valid() && Legal()
      requires 1 <= draw <= 100 && t1 < 7 && 1 <= c1 <= 6 && t2 < 7 && 1 <= c2 <= 6
      modifies this, field, figure`y
      ensures Valid() && figure != null && nextFigure != null && fresh(nextFigure)
      ensures Observe() == AfterLock(old(Snap()), old(Rules.LandingRow(Grid(), width, figure.Image(), figure.x, figure.y)),
                                     width, true, draw, t1, c1, t2, c2)
      ensures !gameOver ==> Legal()
    {
      ghost var b := Snap();
      Drop();
      assert Snap() == b;
      assert Legal();
      assert Valid();
      Freeze(true, draw, t1, c1, t2, c2);
    }

    /** saveHighScore: the high score becomes the score when the score beats it. */
    method SaveHighScore()
      modifies this`highScore
      ensures highScore == if score > old(highScore) then score else old(highScore)
      ensures highScore >= score && highScore >= old(highScore)
    {
      if score > highScore {
        highScore := score;
      }
    }
  }

  /** The parts of the engine's state that a lock reads, taken before it. */
  datatype Snapshot = Snapshot(grid: Rules.Grid, image: seq<int>, x: int, color: int,
                               score: nat, level: nat, next: Figure?, nextKind: nat, nextColor: int,
                               gameOver: bool, doubleScoreEffect: bool, doubleScoreTimer: int,
                               highScore: int, state: string)

  /** The parts of the engine's state that a lock decides. */
  datatype Outcome = Outcome(grid: Rules.Grid, score: nat, effects: seq<Rules.Effect>,
                             doubleScoreEffect: bool, doubleScoreTimer: int,
                             kind: nat, color: int, x: int, y: int, rotation: nat,
                             nextKind: nat, nextColor: int,
                             gameOver: bool, highScore: int, state: string)

  /**
   * The state after freeze locks the piece of snapshot `b` at row `row` on a
   * field `w` wide: the placed field after the row scan; the score plus the
   * award for the rows that were full (doubled on a winning hard-drop
   * draw); one effect per cleared row; the next piece (or a new one of
   * family t1 and colour c1 when there was none) at (3, 0) in rotation 0;
   * a new next piece of family t2 and colour c2; and game over once the
   * new piece collides where it spawns.
   */
  ghost function AfterLock(b: Snapshot, row: int, w: nat, isSpaceDrop: bool, draw: int,
                           t1: nat, c1: int, t2: nat, c2: int): (o: Outcome)
    requires Rules.WellFormed(b.grid, w) && b.nextKind < 7 && t1 < 7
    ensures |o.grid| == |b.grid| && Rules.WellFormed(o.grid, w)
    ensures o.score >= b.score && (b.gameOver ==> o.gameOver)
    ensures |o.effects| == 0 ==> o.score == b.score
    ensures 1 <= |o.effects| <= 4 ==> o.score > b.score
    ensures o.x == 3 && o.y == 0 && o.rotation == 0 && o.nextKind == t2 && o.nextColor == c2
    ensures o.highScore == b.highScore && o.state == b.state
  {
    var placed := Rules.Placed(b.grid, b.image, b.x, row, b.color);
    var lines := Rules.FullRowsFrom(placed, 1);
    var doubled := Rules.Doubled(isSpaceDrop, |lines|, b.level, draw);
    var cleared := Rules.Cleared(placed);
    var kind := if b.next != null then b.nextKind else t1;
    Rules.ScanShape(placed, w, 1, []);
    Shapes.FiguresOk();
    Outcome(cleared, b.score + Rules.Award(|lines|, doubled), Rules.Effects(lines, doubled),
            doubled || b.doubleScoreEffect, if doubled then 30 else b.doubleScoreTimer,
            kind, if b.next != null then b.nextColor else c1, 3, 0, 0, t2, c2,
            b.gameOver || Rules.Hits(cleared, w, Shapes.Figures[kind][0], 3, 0),
            b.highScore, b.state)
  }

  /**
   * A lock keeps the field made of empty cells and the six colours, given
   * a piece colour among them.
   */
  lemma AfterLockColours(b: Snapshot, row: int, w: nat, isSpaceDrop: bool, draw: int,
                         t1: nat, c1: int, t2: nat, c2: int)
    requires Rules.WellFormed(b.grid, w) && b.nextKind < 7 && t1 < 7
    requires Rules.Colours(b.grid) && 1 <= b.color <= 6
    ensures Rules.Colours(AfterLock(b, row, w, isSpaceDrop, draw, t1, c1, t2, c2).grid)
  {
    var placed := Rules.Placed(b.grid, b.image, b.x, row, b.color);
    Rules.PlacedColours(b.grid, b.image, b.x, row, b.color);
    Rules.ScanColours(placed, 1, []);
  }

  /**
   * A lock that leaves row 1 full ends the game: the new piece collides
   * where it spawns.
   */
  lemma AfterLockRowOneFull(b: Snapshot, row: int, w: nat, isSpaceDrop: bool, draw: int,
                            t1: nat, c1: int, t2: nat, c2: int)
    requires Rules.WellFormed(b.grid, w) && b.nextKind < 7 && t1 < 7
    requires Rules.Colours(b.grid) && 1 <= b.color <= 6 && 2 <= |b.grid|
    requires Rules.IsFull(AfterLock(b, row, w, isSpaceDrop, draw, t1, c1, t2, c2).grid[1])
    ensures AfterLock(b, row, w, isSpaceDrop, draw, t1, c1, t2, c2).gameOver
  {
    var o := AfterLock(b, row, w, isSpaceDrop, draw, t1, c1, t2, c2);
    AfterLockColours(b, row, w, isSpaceDrop, draw, t1, c1, t2, c2);
    var kind := if b.next != null then b.nextKind else t1;
    Rules.FullRowOneBlocksSpawn(o.grid, w, kind);
  }
}
