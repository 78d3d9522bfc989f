/**
 * The shape table of the game engine (game.js) and the facts about it that
 * the rest of the model relies on.
 *
 * A rotation state ("image") is a list of cell indices of a 4x4 box, the
 * index of the cell in row i and column j being i * 4 + j.
 */
module Shapes {

  /** The shape table of game.js, families in the order I, Z, S, J, L, T, O. */
  const Figures: seq<seq<seq<int>>> := [
    [[1, 5, 9, 13], [4, 5, 6, 7]],
    [[4, 5, 9, 10], [2, 6, 5, 9]],
    [[6, 7, 9, 10], [1, 5, 6, 10]],
    [[1, 2, 5, 9], [0, 4, 5, 6], [1, 5, 9, 8], [4, 5, 6, 10]],
    [[1, 2, 6, 10], [5, 6, 7, 9], [2, 6, 10, 11], [3, 5, 6, 7]],
    [[1, 4, 5, 6], [1, 4, 5, 9], [4, 5, 6, 9], [1, 5, 6, 9]],
    [[1, 2, 5, 6]]
  ]

  /** The seven tetromino families. */
  datatype Family = I | Z | S | J | L | T | O

  /** Position of a family in a shape table. */
  function Index(f: Family): nat
  {
    match f
    case I => 0
    case Z => 1
    case S => 2
    case J => 3
    case L => 4
    case T => 5
    case O => 6
  }

  /** The number of distinct rotation states a family has. */
  function RotationCount(f: Family): nat
  {
    match f
    case O => 1
    case I | Z | S => 2
    case J | L | T => 4
  }

  /** Cell (i, j) of the 4x4 box is occupied by `img`. */
  predicate Occupies(img: seq<int>, i: int, j: int)
  {
    i * 4 + j in img
  }

  /** Exactly four pairwise distinct cell indices, each inside the 4x4 box. */
  predicate ImageOk(img: seq<int>)
  {
    |img| == 4
    && (forall k | 0 <= k < 4 :: 0 <= img[k] < 16)
    && (forall a, b | 0 <= a < b < 4 :: img[a] != img[b])
  }

  /** A family: at least one rotation, every rotation a well-formed image. */
  predicate FamilyOk(fam: seq<seq<int>>)
  {
    |fam| >= 1 && forall r | 0 <= r < |fam| :: ImageOk(fam[r])
  }

  /** A shape table: seven well-formed families with the expected rotation counts. */
  predicate TableOk(table: seq<seq<seq<int>>>)
  {
    |table| == 7
    && (forall t | 0 <= t < 7 :: FamilyOk(table[t]))
    && (forall f: Family :: |table[Index(f)]| == RotationCount(f))
  }

  /** The set of cells an image occupies. */
  function Cells(img: seq<int>): set<int>
  {
    set k | k in img
  }

  /** The rotation states of one family are pairwise different cell sets. */
  predicate DistinctRotations(fam: seq<seq<int>>)
  {
    forall a, b | 0 <= a < b < |fam| :: Cells(fam[a]) != Cells(fam[b])
  }

  lemma DifferAt(p: seq<int>, q: seq<int>, x: int)
    requires x in p && x !in q
    ensures Cells(p) != Cells(q)
  {
    assert x in Cells(p);
  }

  /** An image written out as four box indices. */
  lemma ImageOfFour(a: int, b: int, c: int, d: int)
    requires 0 <= a < 16 && 0 <= b < 16 && 0 <= c < 16 && 0 <= d < 16
    requires a != b && a != c && a != d && b != c && b != d && c != d
    ensures ImageOk([a, b, c, d])
  {
  }

  lemma FiguresOk()
    ensures TableOk(Figures)
  {
    ImageOfFour(1, 5, 9, 13); ImageOfFour(4, 5, 6, 7);
    ImageOfFour(4, 5, 9, 10); ImageOfFour(2, 6, 5, 9);
    ImageOfFour(6, 7, 9, 10); ImageOfFour(1, 5, 6, 10);
    ImageOfFour(1, 2, 5, 9); ImageOfFour(0, 4, 5, 6); ImageOfFour(1, 5, 9, 8); ImageOfFour(4, 5, 6, 10);
    ImageOfFour(1, 2, 6, 10); ImageOfFour(5, 6, 7, 9); ImageOfFour(2, 6, 10, 11); ImageOfFour(3, 5, 6, 7);
    ImageOfFour(1, 4, 5, 6); ImageOfFour(1, 4, 5, 9); ImageOfFour(4, 5, 6, 9); ImageOfFour(1, 5, 6, 9);
    ImageOfFour(1, 2, 5, 6);
  }

  /** No family of the table lists the same rotation state twice. */
  lemma FiguresDistinct()
    ensures forall t | 0 <= t < 7 :: DistinctRotations(Figures[t])
  {
    forall t, a, b | 0 <= t < 7 && 0 <= a < b < |Figures[t]|
      ensures Cells(Figures[t][a]) != Cells(Figures[t][b])
    {
      // a cell of rotation a that rotation b does not occupy
      var x :=
        if t == 0 && a == 0 && b == 1 then 1 else
        if t == 1 && a == 0 && b == 1 then 4 else
        if t == 2 && a == 0 && b == 1 then 7 else
        if t == 3 && a == 0 && b == 1 then 1 else
        if t == 3 && a == 0 && b == 2 then 2 else
        if t == 3 && a == 0 && b == 3 then 1 else
        if t == 3 && a == 1 && b == 2 then 0 else
        if t == 3 && a == 1 && b == 3 then 0 else
        if t == 3 && a == 2 && b == 3 then 1 else
        if t == 4 && a == 0 && b == 1 then 1 else
        if t == 4 && a == 0 && b == 2 then 1 else
        if t == 4 && a == 0 && b == 3 then 1 else
        if t == 4 && a == 1 && b == 2 then 5 else
        if t == 4 && a == 1 && b == 3 then 9 else
        if t == 4 && a == 2 && b == 3 then 2 else
        if t == 5 && a == 0 && b == 1 then 6 else
        if t == 5 && a == 0 && b == 2 then 1 else
        if t == 5 && a == 0 && b == 3 then 4 else
        if t == 5 && a == 1 && b == 2 then 1 else
        if t == 5 && a == 1 && b == 3 then 4 else
        4;
      DifferAt(Figures[t][a], Figures[t][b], x);
    }
  }

  /** The number of rotation states the table lists for the family at index `kind`. */
  function Rotations(kind: nat): (n: nat)
    requires kind < 7
    ensures 1 <= n <= 4
  {
    if kind < 3 then 2 else if kind < 6 then 4 else 1
  }

  /** Rotations reads the family sizes off the table. */
  lemma RotationsOfTable(kind: nat)
    requires kind < 7
    ensures Rotations(kind) == |Figures[kind]|
  {
  }

  /**
   * The rotation that Figure.rotate advances to: the next index, wrapping
   * to 0 after the last rotation of the family.
   */
  function NextRotation(kind: nat, rotation: nat): (r: nat)
    requires kind < 7 && rotation < Rotations(kind)
    ensures r < Rotations(kind)
    ensures r == 0 <==> rotation == Rotations(kind) - 1
    ensures r != 0 ==> r == rotation + 1
  {
    RotationsOfTable(kind);
    (rotation + 1) % |Figures[kind]|
  }

  /** The rotation reached after `m` successive rotations. */
  function RotateTimes(kind: nat, rotation: nat, m: nat): (r: nat)
    requires kind < 7 && rotation < Rotations(kind)
    ensures r < Rotations(kind)
  {
    if m == 0 then rotation else NextRotation(kind, RotateTimes(kind, rotation, m - 1))
  }

  lemma {:induction false} RotateTimesValue(kind: nat, rotation: nat, m: nat)
    requires kind < 7 && rotation < Rotations(kind)
    requires m <= Rotations(kind)
    ensures var n := Rotations(kind);
      RotateTimes(kind, rotation, m) == if rotation + m < n then rotation + m else rotation + m - n
  {
    if m > 0 {
      RotateTimesValue(kind, rotation, m - 1);
    }
  }

  /**
   * Rotating a figure as many times as its family has rotations brings it
   * back to where it started, and no smaller positive number of rotations does.
   */
  lemma RotationCycle(kind: nat, rotation: nat, m: nat)
    requires kind < 7 && rotation < Rotations(kind)
    requires 0 < m <= Rotations(kind)
    ensures RotateTimes(kind, rotation, m) == rotation <==> m == Rotations(kind)
  {
    RotateTimesValue(kind, rotation, m);
  }
}
