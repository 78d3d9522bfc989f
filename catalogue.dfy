/**
 * The standalone shape catalogue of the other game variant (figures.js).
 * It is kept apart from the engine's own table: its L family lists other
 * rotation states than game.js does.
 */
module Catalogue {
  import Shapes

  /** The catalogue of figures.js, families in the order I, Z, S, J, L, T, O. */
  const Figures: seq<seq<seq<int>>> := [
    [[1, 5, 9, 13], [4, 5, 6, 7]],
    [[4, 5, 9, 10], [2, 6, 5, 9]],
    [[6, 7, 9, 10], [1, 5, 6, 10]],
    [[1, 2, 5, 9], [0, 4, 5, 6], [1, 5, 9, 8], [4, 5, 6, 10]],
    [[1, 5, 9, 10], [4, 5, 6, 8], [0, 1, 5, 9], [2, 4, 5, 6]],
    [[1, 4, 5, 6], [1, 4, 5, 9], [4, 5, 6, 9], [1, 5, 6, 9]],
    [[1, 2, 5, 6]]
  ]

  /** All four cells in one column of the box, or all four in one row. */
  predicate StraightLine(img: seq<int>)
  {
    |img| == 4
    && ((forall k | 0 <= k < 4 :: img[k] % 4 == img[0] % 4)
        || (forall k | 0 <= k < 4 :: img[k] / 4 == img[0] / 4))
  }

  /** The 2x2 square of the box whose top-left cell is `c`. */
  function SquareAt(c: int): set<int>
  {
    {c, c + 1, c + 4, c + 5}
  }

  /** The four cells form a 2x2 square. */
  predicate Square(img: seq<int>)
  {
    exists c | 0 <= c < 11 && c % 4 < 3 :: Shapes.Cells(img) == SquareAt(c)
  }

  /** A Z: two horizontal dominoes, the lower one shifted one column right. */
  function ZAt(c: int): set<int>
  {
    {c, c + 1, c + 5, c + 6}
  }

  /** An S: two horizontal dominoes, the lower one shifted one column left. */
  function SAt(c: int): set<int>
  {
    {c + 1, c + 2, c + 4, c + 5}
  }

  /** A vertical bar of three with a cell to the right of its top: a J turned upside down. */
  function JAt(c: int): set<int>
  {
    {c, c + 1, c + 4, c + 8}
  }

  /** A vertical bar of three with a cell to the right of its bottom: an L. */
  function LAt(c: int): set<int>
  {
    {c, c + 4, c + 8, c + 9}
  }

  /** A horizontal bar of three with a cell above its middle: a T. */
  function TAt(c: int): set<int>
  {
    {c + 1, c + 4, c + 5, c + 6}
  }

  /** The cells are a Z placed in the box at top-left cell c. */
  predicate ZShape(img: seq<int>)
  {
    exists c | 0 <= c < 10 && c % 4 < 2 :: Shapes.Cells(img) == ZAt(c)
  }

  predicate SShape(img: seq<int>)
  {
    exists c | 0 <= c < 10 && c % 4 < 2 :: Shapes.Cells(img) == SAt(c)
  }

  predicate JShape(img: seq<int>)
  {
    exists c | 0 <= c < 7 && c % 4 < 3 :: Shapes.Cells(img) == JAt(c)
  }

  predicate LShape(img: seq<int>)
  {
    exists c | 0 <= c < 7 && c % 4 < 3 :: Shapes.Cells(img) == LAt(c)
  }

  predicate TShape(img: seq<int>)
  {
    exists c | 0 <= c < 10 && c % 4 < 2 :: Shapes.Cells(img) == TAt(c)
  }

  /**
   * Every rotation holds four distinct indices of the 4x4 box, and the
   * family counts are O: 1; I, Z, S: 2; J, L, T: 4.
   */
  lemma CatalogueOk()
    ensures Shapes.TableOk(Figures)
  {
    Shapes.FiguresOk();
    // the L family is the only one not shared with the engine's table
    Shapes.ImageOfFour(1, 5, 9, 10); Shapes.ImageOfFour(4, 5, 6, 8);
    Shapes.ImageOfFour(0, 1, 5, 9); Shapes.ImageOfFour(2, 4, 5, 6);
    OnlyLDiffers();
    assert forall t | 0 <= t < 7 && t != 4 :: Figures[t] == Shapes.Figures[t] by {
      forall t | 0 <= t < 7 && t != 4 ensures Figures[t] == Shapes.Figures[t] {
        var f := if t == 0 then Shapes.I else if t == 1 then Shapes.Z else if t == 2 then Shapes.S
          else if t == 3 then Shapes.J else if t == 5 then Shapes.T else Shapes.O;
        assert Shapes.Index(f) == t;
      }
    }
  }

  /** No family of the catalogue lists the same rotation state twice. */
  lemma CatalogueDistinct()
    ensures forall t | 0 <= t < 7 :: Shapes.DistinctRotations(Figures[t])
  {
    forall t, a, b | 0 <= t < 7 && 0 <= a < b < |Figures[t]|
      ensures Shapes.Cells(Figures[t][a]) != Shapes.Cells(Figures[t][b])
    {
      // a cell of rotation a that rotation b does not occupy
      var x :=
        if t == 0 && a == 0 && b == 1 then 1 else
        if t == 1 && a == 0 && b == 1 then 4 else
        if t == 2 && a == 0 && b == 1 then 7 else
        if t == 3 && a == 0 && b == 1 then 1 else
        if t == 3 && a == 0 && b == 2 then 2 else
        if t == 3 && a == 0 && b == 3 then 1 else
        if t == 3 && a == 1 && b == 2 then 0 else
        if t == 3 && a == 1 && b == 3 then 0 else
        if t == 3 && a == 2 && b == 3 then 1 else
        if t == 4 && a == 0 && b == 1 then 1 else
        if t == 4 && a == 0 && b == 2 then 10 else
        if t == 4 && a == 0 && b == 3 then 1 else
        if t == 4 && a == 1 && b == 2 then 4 else
        if t == 4 && a == 1 && b == 3 then 8 else
        if t == 4 && a == 2 && b == 3 then 0 else
        if t == 5 && a == 0 && b == 1 then 6 else
        if t == 5 && a == 0 && b == 2 then 1 else
        if t == 5 && a == 0 && b == 3 then 4 else
        if t == 5 && a == 1 && b == 2 then 1 else
        if t == 5 && a == 1 && b == 3 then 4 else
        4;
      Shapes.DifferAt(Figures[t][a], Figures[t][b], x);
    }
  }

  /**
   * The families sit in the order I, Z, S, J, L, T, O: the I family is a
   * straight line in both rotations, and the first rotation of each other
   * family has that family's shape.
   */
  lemma FamilyOrder()
    ensures forall r | 0 <= r < |Figures[Shapes.Index(Shapes.I)]| :: StraightLine(Figures[Shapes.Index(Shapes.I)][r])
    ensures ZShape(Figures[Shapes.Index(Shapes.Z)][0])
    ensures SShape(Figures[Shapes.Index(Shapes.S)][0])
    ensures JShape(Figures[Shapes.Index(Shapes.J)][0])
    ensures LShape(Figures[Shapes.Index(Shapes.L)][0])
    ensures TShape(Figures[Shapes.Index(Shapes.T)][0])
    ensures Square(Figures[Shapes.Index(Shapes.O)][0])
  {
    IStraight();
    ZAndS();
    JAndL();
    TAndO();
  }

  lemma IStraight()
    ensures forall r | 0 <= r < |Figures[0]| :: StraightLine(Figures[0][r])
  {
    var v, h := Figures[0][0], Figures[0][1];
    assert v == [1, 5, 9, 13] && h == [4, 5, 6, 7];
    assert forall k | 0 <= k < 4 :: v[k] % 4 == v[0] % 4;
    assert forall k | 0 <= k < 4 :: h[k] / 4 == h[0] / 4;
    assert StraightLine(v) && StraightLine(h);
  }

  lemma ZAndS()
    ensures ZShape(Figures[1][0]) && SShape(Figures[2][0])
  {
    assert Shapes.Cells(Figures[1][0]) == ZAt(4);
    assert Shapes.Cells(Figures[2][0]) == SAt(5);
  }

  lemma JAndL()
    ensures JShape(Figures[3][0]) && LShape(Figures[4][0])
  {
    assert Shapes.Cells(Figures[3][0]) == JAt(1);
    assert Shapes.Cells(Figures[4][0]) == LAt(1);
  }

  lemma TAndO()
    ensures TShape(Figures[5][0]) && Square(Figures[6][0])
  {
    assert Shapes.Cells(Figures[5][0]) == TAt(0);
    assert Shapes.Cells(Figures[6][0]) == SquareAt(1);
  }

  /**
   * Only the L family differs from the engine's table: each of its four
   * rotations is another cell set, every other family is identical.
   */
  lemma OnlyLDiffers()
    ensures forall f: Shapes.Family | f != Shapes.L :: Figures[Shapes.Index(f)] == Shapes.Figures[Shapes.Index(f)]
    ensures |Figures[Shapes.Index(Shapes.L)]| == |Shapes.Figures[Shapes.Index(Shapes.L)]|
    ensures forall r | 0 <= r < 4 ::
      Shapes.Cells(Figures[Shapes.Index(Shapes.L)][r]) != Shapes.Cells(Shapes.Figures[Shapes.Index(Shapes.L)][r])
  {
    forall r | 0 <= r < 4
      ensures Shapes.Cells(Figures[4][r]) != Shapes.Cells(Shapes.Figures[4][r])
    {
      var x := if r == 0 then 5 else if r == 1 then 4 else if r == 2 then 0 else 2;
      Shapes.DifferAt(Figures[4][r], Shapes.Figures[4][r], x);
    }
  }
}
