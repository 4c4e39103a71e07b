/**
 The auxiliary ranking of cell evaluations: higher score first, then closer
 to the centre of the board, then top row first, then left column first.
 No player wires it into its move choice; it is a pure comparator returning
 a negative, zero or positive number.

 As written, the second key computes the distance of `b` with `a`'s column,
 so the column terms cancel and only the row distance to the centre counts.
 `Compare` models the comparator as written; `CompareByCentre` is the
 intended one, with `b`'s own column.
 */
module CellSorter {
  import opened GameCore

  function Abs(x: real): real {
    if x < 0.0 then -x else x
  }

  /**
   Three-way comparison of two numbers, as `Double.compare` gives it on doubles
   that are not NaN and `Integer.compare` on ints (an int is compared as a real).
   */
  function CompareReal(x: real, y: real): (cmp: int)
    ensures cmp == -1 || cmp == 0 || cmp == 1
    ensures cmp < 0 <==> x < y
    ensures cmp == 0 <==> x == y
  {
    if x < y then -1 else if x > y then 1 else 0
  }

  /** The centre coordinate of a `size`×`size` board. */
  function Centre(size: int): real {
    (size - 1) as real / 2.0
  }

  /** Manhattan distance of a cell to the centre of the board. */
  function CentreDistance(size: int, row: int, col: int): real {
    Abs(row as real - Centre(size)) + Abs(col as real - Centre(size))
  }

  /** The comparator as written: `b`'s distance is taken with `a`'s column. */
  function Compare(size: int, a: CellEvaluation, b: CellEvaluation): (cmp: int)
    ensures cmp == -1 || cmp == 0 || cmp == 1
  {
    var scoreCmp := CompareReal(b.score, a.score);
    if scoreCmp != 0 then scoreCmp
    else
      var distA := Abs(a.row as real - Centre(size)) + Abs(a.col as real - Centre(size));
      var distB := Abs(b.row as real - Centre(size)) + Abs(a.col as real - Centre(size));
      var distCmp := CompareReal(distA, distB);
      if distCmp != 0 then distCmp
      else if a.row != b.row then CompareReal(a.row as real, b.row as real)
      else CompareReal(a.col as real, b.col as real)
  }

  /** The intended comparator: each cell's distance with its own column. */
  function CompareByCentre(size: int, a: CellEvaluation, b: CellEvaluation): (cmp: int)
    ensures cmp == -1 || cmp == 0 || cmp == 1
  {
    var scoreCmp := CompareReal(b.score, a.score);
    if scoreCmp != 0 then scoreCmp
    else
      var distCmp := CompareReal(CentreDistance(size, a.row, a.col), CentreDistance(size, b.row, b.col));
      if distCmp != 0 then distCmp
      else if a.row != b.row then CompareReal(a.row as real, b.row as real)
      else CompareReal(a.col as real, b.col as real)
  }

  /** A sort key: the comparators are the lexicographic order on these. */
  datatype SortKey = SortKey(negScore: real, dist: real, row: int, col: int)

  /** Lexicographic three-way comparison of sort keys. */
  function CompareKeys(x: SortKey, y: SortKey): (cmp: int)
    ensures cmp == -1 || cmp == 0 || cmp == 1
    ensures cmp == 0 <==> x == y
  {
    if x.negScore != y.negScore then CompareReal(x.negScore, y.negScore)
    else if x.dist != y.dist then CompareReal(x.dist, y.dist)
    else if x.row != y.row then CompareReal(x.row as real, y.row as real)
    else CompareReal(x.col as real, y.col as real)
  }

  /** The lexicographic order is antisymmetric and transitive. */
  lemma CompareKeysIsOrder(x: SortKey, y: SortKey, z: SortKey)
    ensures CompareKeys(x, y) == -CompareKeys(y, x)
    ensures CompareKeys(x, y) <= 0 && CompareKeys(y, z) <= 0 ==> CompareKeys(x, z) <= 0
    ensures CompareKeys(x, y) < 0 && CompareKeys(y, z) <= 0 ==> CompareKeys(x, z) < 0
  {
  }

  /** The key the comparator as written sorts by: the column does not enter the distance. */
  function WrittenKey(size: int, e: CellEvaluation): SortKey {
    SortKey(-e.score, Abs(e.row as real - Centre(size)), e.row, e.col)
  }

  /** The key the intended comparator sorts by. */
  function CentreKey(size: int, e: CellEvaluation): SortKey {
    SortKey(-e.score, CentreDistance(size, e.row, e.col), e.row, e.col)
  }

  /** The comparator as written is the lexicographic order on (-score, |row - centre|, row, col). */
  lemma CompareIsWrittenKeyOrder(size: int, a: CellEvaluation, b: CellEvaluation)
    ensures Compare(size, a, b) == CompareKeys(WrittenKey(size, a), WrittenKey(size, b))
  {
    var ka, kb := WrittenKey(size, a), WrittenKey(size, b);
    var colDist := Abs(a.col as real - Centre(size));
    assert (ka.dist + colDist < kb.dist + colDist) == (ka.dist < kb.dist);
    assert (ka.dist + colDist == kb.dist + colDist) == (ka.dist == kb.dist);
    assert (-a.score < -b.score) == (b.score < a.score);
  }

  /** The intended comparator is the lexicographic order on (-score, centre distance, row, col). */
  lemma CompareByCentreIsCentreKeyOrder(size: int, a: CellEvaluation, b: CellEvaluation)
    ensures CompareByCentre(size, a, b) == CompareKeys(CentreKey(size, a), CentreKey(size, b))
  {
    assert (-a.score < -b.score) == (b.score < a.score);
  }

  /**
   The comparator as written is a total order on (score, row, col): higher
   scores first, zero only for equal score and position, antisymmetric and
   transitive.
   */
  lemma CompareIsOrder(size: int, a: CellEvaluation, b: CellEvaluation, c: CellEvaluation)
    ensures a.score != b.score ==> (Compare(size, a, b) < 0 <==> a.score > b.score)
    ensures Compare(size, a, b) == 0 <==> a.score == b.score && a.row == b.row && a.col == b.col
    ensures Compare(size, a, b) == -Compare(size, b, a)
    ensures Compare(size, a, b) <= 0 && Compare(size, b, c) <= 0 ==> Compare(size, a, c) <= 0
    ensures Compare(size, a, b) < 0 && Compare(size, b, c) <= 0 ==> Compare(size, a, c) < 0
  {
    CompareIsWrittenKeyOrder(size, a, b);
    CompareIsWrittenKeyOrder(size, b, a);
    CompareIsWrittenKeyOrder(size, b, c);
    CompareIsWrittenKeyOrder(size, a, c);
    CompareKeysIsOrder(WrittenKey(size, a), WrittenKey(size, b), WrittenKey(size, c));
  }

  /**
   The intended comparator is a total order on (score, row, col) too, and it
   puts, among equal scores, the cell nearer the centre first.
   */
  lemma CompareByCentreIsOrder(size: int, a: CellEvaluation, b: CellEvaluation, c: CellEvaluation)
    ensures a.score != b.score ==> (CompareByCentre(size, a, b) < 0 <==> a.score > b.score)
    ensures a.score == b.score && CentreDistance(size, a.row, a.col) < CentreDistance(size, b.row, b.col) ==>
      CompareByCentre(size, a, b) < 0
    ensures CompareByCentre(size, a, b) == 0 <==> a.score == b.score && a.row == b.row && a.col == b.col
    ensures CompareByCentre(size, a, b) == -CompareByCentre(size, b, a)
    ensures CompareByCentre(size, a, b) <= 0 && CompareByCentre(size, b, c) <= 0 ==> CompareByCentre(size, a, c) <= 0
    ensures CompareByCentre(size, a, b) < 0 && CompareByCentre(size, b, c) <= 0 ==> CompareByCentre(size, a, c) < 0
  {
    CompareByCentreIsCentreKeyOrder(size, a, b);
    CompareByCentreIsCentreKeyOrder(size, b, a);
    CompareByCentreIsCentreKeyOrder(size, b, c);
    CompareByCentreIsCentreKeyOrder(size, a, c);
    CompareKeysIsOrder(CentreKey(size, a), CentreKey(size, b), CentreKey(size, c));
  }

  /**
   As written, two cells of one row with equal scores are ordered by column
   alone, however far each is from the centre.
   */
  lemma CompareIgnoresColumnDistance(size: int, a: CellEvaluation, b: CellEvaluation)
    requires a.score == b.score && a.row == b.row
    ensures Compare(size, a, b) == CompareReal(a.col as real, b.col as real)
  {
  }

  /**
   On the 4×4 board, (0,0) is 3 from the centre and (0,1) is 2, yet with
   equal scores the comparator as written puts (0,0) first; the intended one
   puts (0,1) first.
   */
  lemma CentreTieBreakCounterexample(s: real)
    ensures
      var a, b := CellEvaluation(0, 0, s, NoRationale), CellEvaluation(0, 1, s, NoRationale);
      && CentreDistance(4, 0, 0) == 3.0 && CentreDistance(4, 0, 1) == 2.0
      && Compare(4, a, b) == -1
      && CompareByCentre(4, a, b) == 1
  {
  }
}
