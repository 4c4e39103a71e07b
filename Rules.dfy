/**
 The rules of the 4×4 Towers (skyscraper) puzzle, stated on values: the
 board, the Latin-square conflict test, skyline visibility, and the
 predicates with which the engine and the computer players are specified.
 */
module Rules {

  /** Side of the board; the game is fixed at 4×4. */
  const N := 4

  /** A row or column coordinate. */
  type Index = i: int | 0 <= i < N

  /** A board: N rows of N cells, 0 for an empty cell, 1..N for a tower. */
  type Grid = g: seq<seq<int>> | |g| == N && forall r :: 0 <= r < N ==> |g[r]| == N
    witness [[0, 0, 0, 0], [0, 0, 0, 0], [0, 0, 0, 0], [0, 0, 0, 0]]

  /** The clues along one edge of the board, one per row or column. */
  type Clues = s: seq<int> | |s| == N witness [0, 0, 0, 0]

  datatype Option<T> = None | Some(value: T)

  /** The two players. */
  datatype Actor = Human | Cpu
  {
    function Other(): Actor { if this == Human then Cpu else Human }
  }

  /** A move as the computer players return it: {row, col, value}. */
  datatype Move = Move(row: Index, col: Index, value: int)

  /** A tower height that may be placed. */
  predicate IsHeight(v: int) { 1 <= v <= N }

  /** The board every game starts from. */
  function EmptyGrid(): (g: Grid)
    ensures forall r: Index, c: Index :: g[r][c] == 0
  {
    [[0, 0, 0, 0], [0, 0, 0, 0], [0, 0, 0, 0], [0, 0, 0, 0]]
  }

  /** The board with `v` written at (`row`, `col`). */
  function Place(g: Grid, row: Index, col: Index, v: int): (h: Grid)
    ensures h[row][col] == v
    ensures forall r: Index, c: Index :: (r != row || c != col) ==> h[r][c] == g[r][c]
  {
    g[row := g[row][col := v]]
  }

  /** Two boards that agree on every cell are the same board. */
  lemma GridsEqual(g: Grid, h: Grid)
    requires forall r: Index, c: Index :: g[r][c] == h[r][c]
    ensures g == h
  {
    forall r: Index ensures g[r] == h[r] {
      assert forall c: Index :: g[r][c] == h[r][c];
    }
  }

  /** The cells of column `col`, top to bottom. */
  function Column(g: Grid, col: Index): (line: seq<int>)
    ensures |line| == N && forall r: Index :: line[r] == g[r][col]
  {
    seq(N, r requires 0 <= r < N => g[r][col])
  }

  /** Every cell holds 0 or a tower height. */
  ghost predicate InRange(g: Grid) {
    forall r: Index, c: Index :: 0 <= g[r][c] <= N
  }

  // ---------------------------------------------------------------------
  // Conflicts and legal values
  // ---------------------------------------------------------------------

  /**
   `v` already stands in another cell of row `row` or of column `col`.
   These other cells are exactly the neighbours of (`row`, `col`) in the
   constraint graph, which joins two distinct cells sharing a row or column.
   */
  ghost predicate Conflict(g: Grid, row: Index, col: Index, v: int) {
    (exists c: Index :: c != col && g[row][c] == v) ||
    (exists r: Index :: r != row && g[r][col] == v)
  }

  /** Placing `v` at the empty cell (`row`, `col`) is allowed. */
  ghost predicate IsLegalMove(g: Grid, row: Index, col: Index, v: int) {
    g[row][col] == 0 && IsHeight(v) && !Conflict(g, row, col, v)
  }

  /** Heights in 1..k-1 that do not conflict at (`row`, `col`). */
  ghost function LegalBelow(g: Grid, row: Index, col: Index, k: int): set<int> {
    set v | 1 <= v < k && !Conflict(g, row, col, v)
  }

  /** Heights that do not conflict at (`row`, `col`). */
  ghost function LegalValues(g: Grid, row: Index, col: Index): set<int> {
    LegalBelow(g, row, col, N + 1)
  }

  ghost function LegalCount(g: Grid, row: Index, col: Index): nat {
    |LegalValues(g, row, col)|
  }

  /** Counting the candidate heights one at a time, in ascending order. */
  lemma LegalBelowStep(g: Grid, row: Index, col: Index, k: int)
    requires 1 <= k
    ensures LegalBelow(g, row, col, k + 1) ==
            LegalBelow(g, row, col, k) + (if Conflict(g, row, col, k) then {} else {k})
    ensures |LegalBelow(g, row, col, k + 1)| ==
            |LegalBelow(g, row, col, k)| + (if Conflict(g, row, col, k) then 0 else 1)
  {
    var small, large := LegalBelow(g, row, col, k), LegalBelow(g, row, col, k + 1);
    assert large == small + (if Conflict(g, row, col, k) then {} else {k});
    assert k !in small;
  }

  /** There are at most N legal heights, and there is one iff the count is positive. */
  lemma LegalCountRange(g: Grid, row: Index, col: Index)
    ensures LegalCount(g, row, col) <= N
    ensures LegalCount(g, row, col) > 0 <==> exists v :: IsHeight(v) && !Conflict(g, row, col, v)
  {
    assert LegalValues(g, row, col) <= {1, 2, 3, 4};
    assert |{1, 2, 3, 4}| == 4;
    SubsetCardinality(LegalValues(g, row, col), {1, 2, 3, 4});
    if exists v :: IsHeight(v) && !Conflict(g, row, col, v) {
      var v :| IsHeight(v) && !Conflict(g, row, col, v);
      assert v in LegalValues(g, row, col);
    }
  }

  lemma SubsetCardinality(a: set<int>, b: set<int>)
    requires a <= b
    ensures |a| <= |b|
  {
    assert b == a + (b - a);
  }

  /** The distinct towers already standing in row `row` or column `col`. */
  ghost function UsedValues(g: Grid, row: Index, col: Index): set<int> {
    set v | v in g[row] + Column(g, col) && v != 0
  }

  /** On an empty cell, a height conflicts iff it is already used in the row or column. */
  lemma UsedIffConflict(g: Grid, row: Index, col: Index, v: int)
    requires g[row][col] == 0 && v != 0
    ensures Conflict(g, row, col, v) <==> v in UsedValues(g, row, col)
  {
    var line := g[row] + Column(g, col);
    if v in UsedValues(g, row, col) {
      var i :| 0 <= i < |line| && line[i] == v;
      if i < N {
        assert g[row][i] == v;
      } else {
        assert g[i - N][col] == v;
      }
    }
    if Conflict(g, row, col, v) {
      if exists c: Index :: c != col && g[row][c] == v {
        var c: Index :| c != col && g[row][c] == v;
        assert line[c] == v;
      } else {
        var r: Index :| r != row && g[r][col] == v;
        assert line[N + r] == v;
      }
    }
  }

  /** On a board whose cells hold 0..N, every used value is a height. */
  lemma UsedAreHeights(g: Grid, row: Index, col: Index)
    requires InRange(g)
    ensures UsedValues(g, row, col) <= {1, 2, 3, 4}
  {
    var line := g[row] + Column(g, col);
    forall v | v in UsedValues(g, row, col) ensures v in {1, 2, 3, 4} {
      var i :| 0 <= i < |line| && line[i] == v;
      if i < N {
        assert g[row][i] == v;
      } else {
        assert g[i - N][col] == v;
      }
    }
  }

  /**
   On an empty cell of a board whose cells hold 0..N, the legal heights are
   the heights not yet used in its row or column, so there are N minus the
   number of distinct used heights of them.
   */
  lemma LegalIsUnused(g: Grid, row: Index, col: Index)
    requires InRange(g) && g[row][col] == 0
    ensures LegalValues(g, row, col) == {1, 2, 3, 4} - UsedValues(g, row, col)
    ensures LegalCount(g, row, col) == N - |UsedValues(g, row, col)|
  {
    var used, all := UsedValues(g, row, col), {1, 2, 3, 4};
    forall v | v in all ensures v in LegalValues(g, row, col) <==> v !in used {
      UsedIffConflict(g, row, col, v);
    }
    UsedAreHeights(g, row, col);
    assert LegalValues(g, row, col) == all - used;
    assert all == (all - used) + used;
  }

  /** `v` is the first height in ascending order that does not conflict. */
  ghost predicate IsSmallestLegal(g: Grid, row: Index, col: Index, v: int) {
    IsHeight(v) && !Conflict(g, row, col, v) &&
    forall w :: 1 <= w < v ==> Conflict(g, row, col, w)
  }

  /** Some empty cell admits some height: the board is not deadlocked. */
  ghost predicate AnyLegalMove(g: Grid) {
    exists r: Index, c: Index, v :: IsLegalMove(g, r, c, v)
  }

  /** No row and no column holds the same tower twice. */
  ghost predicate Latin(g: Grid) {
    (forall r: Index, c1: Index, c2: Index ::
       c1 != c2 && g[r][c1] != 0 ==> g[r][c1] != g[r][c2]) &&
    (forall c: Index, r1: Index, r2: Index ::
       r1 != r2 && g[r1][c] != 0 ==> g[r1][c] != g[r2][c])
  }

  /** Placing a non-conflicting tower keeps the board a partial Latin square. */
  lemma PlacePreservesLatin(g: Grid, row: Index, col: Index, v: int)
    requires Latin(g) && !Conflict(g, row, col, v)
    ensures Latin(Place(g, row, col, v))
  {
    var h := Place(g, row, col, v);
    forall r: Index, c1: Index, c2: Index | c1 != c2 && h[r][c1] != 0
      ensures h[r][c1] != h[r][c2]
    {
      if r == row && c1 == col {
        assert h[r][c2] == g[r][c2];
      } else if r == row && c2 == col {
        assert h[r][c1] == g[r][c1];
      }
    }
    forall c: Index, r1: Index, r2: Index | r1 != r2 && h[r1][c] != 0
      ensures h[r1][c] != h[r2][c]
    {
      if c == col && r1 == row {
        assert h[r2][c] == g[r2][c];
      } else if c == col && r2 == row {
        assert h[r1][c] == g[r1][c];
      }
    }
  }

  // ---------------------------------------------------------------------
  // Completion
  // ---------------------------------------------------------------------

  ghost predicate RowComplete(g: Grid, row: Index) {
    forall c: Index :: g[row][c] != 0
  }

  ghost predicate ColumnComplete(g: Grid, col: Index) {
    forall r: Index :: g[r][col] != 0
  }

  ghost predicate BoardFull(g: Grid) {
    forall r: Index, c: Index :: g[r][c] != 0
  }

  /** Number of empty cells in a line. */
  function EmptyCount(line: seq<int>): (n: nat)
    ensures n <= |line|
  {
    if line == [] then 0 else (if line[0] == 0 then 1 else 0) + EmptyCount(line[1..])
  }

  /** Counting one more cell at the end of a line. */
  lemma {:induction false} EmptyCountSnoc(line: seq<int>, x: int)
    ensures EmptyCount(line + [x]) == EmptyCount(line) + (if x == 0 then 1 else 0)
  {
    if line != [] {
      assert (line + [x])[1..] == line[1..] + [x];
      EmptyCountSnoc(line[1..], x);
    }
  }

  /** A line with an empty cell has at least one empty cell. */
  lemma {:induction false} EmptyCountBounds(line: seq<int>, i: int)
    requires 0 <= i < |line| && line[i] == 0
    ensures EmptyCount(line) >= 1
  {
    if i > 0 {
      EmptyCountBounds(line[1..], i - 1);
    }
  }

  // ---------------------------------------------------------------------
  // Skyline visibility
  // ---------------------------------------------------------------------

  /**
   Number of entries of `line` that are strictly taller than `tallest` and
   than every entry before them.
   */
  function Visible(line: seq<int>, tallest: int): nat {
    if line == [] then 0
    else if line[0] > tallest then 1 + Visible(line[1..], line[0])
    else Visible(line[1..], tallest)
  }

  function Reversed(s: seq<int>): (r: seq<int>)
    ensures |r| == |s|
  {
    if s == [] then [] else [s[|s| - 1]] + Reversed(s[..|s| - 1])
  }

  /** The visibility count scanning from the start (`forward`) or from the end. */
  function VisibleCount(line: seq<int>, forward: bool): nat {
    if forward then Visible(line, 0) else Visible(Reversed(line), 0)
  }

  /** Both scans of `line` see what the two clues at its ends say. */
  predicate LineMatchesClues(line: seq<int>, fromStart: int, fromEnd: int) {
    VisibleCount(line, true) == fromStart && VisibleCount(line, false) == fromEnd
  }

  /**
   Empty cells (0) are never visible when the scan starts at height 0 or
   more, so at most the placed towers are counted.
   */
  lemma {:induction false} VisibleAtMostPlaced(line: seq<int>, tallest: int)
    requires tallest >= 0
    ensures Visible(line, tallest) + EmptyCount(line) <= |line|
  {
    if line != [] {
      if line[0] > tallest {
        VisibleAtMostPlaced(line[1..], line[0]);
      } else {
        VisibleAtMostPlaced(line[1..], tallest);
      }
    }
  }

  /** The tallest of `tallest` and every entry of `line`. */
  function Tallest(line: seq<int>, tallest: int): int {
    if line == [] then tallest
    else Tallest(line[1..], if line[0] > tallest then line[0] else tallest)
  }

  /** A tower is taller than `Tallest(line, t)` iff it is taller than `t` and than every entry of `line`. */
  lemma {:induction false} TallerThanTallest(line: seq<int>, t: int, x: int)
    ensures x > Tallest(line, t) <==> x > t && forall j :: 0 <= j < |line| ==> line[j] < x
  {
    if line != [] {
      var t' := if line[0] > t then line[0] else t;
      TallerThanTallest(line[1..], t', x);
      assert forall j :: 1 <= j < |line| ==> line[j] == line[1..][j - 1];
    }
  }

  /** Appending a tower adds one to the count iff it is taller than everything before it. */
  lemma {:induction false} VisibleSnoc(line: seq<int>, t: int, x: int)
    ensures Visible(line + [x], t) == Visible(line, t) + (if x > Tallest(line, t) then 1 else 0)
  {
    if line == [] {
      assert [x][1..] == [];
    } else {
      assert (line + [x])[1..] == line[1..] + [x];
      VisibleSnoc(line[1..], if line[0] > t then line[0] else t, x);
    }
  }

  /** The tower at position `i` can be seen from the start of `line`: it is placed and taller than all before it. */
  ghost predicate SeenAt(line: seq<int>, i: int)
    requires 0 <= i < |line|
  {
    line[i] > 0 && forall j :: 0 <= j < i ==> line[j] < line[i]
  }

  /** The number of positions below `k` whose tower can be seen from the start of `line`. */
  ghost function SeenCount(line: seq<int>, k: nat): nat
    requires k <= |line|
  {
    if k == 0 then 0 else SeenCount(line, k - 1) + (if SeenAt(line, k - 1) then 1 else 0)
  }

  /**
   The running-maximum count equals the positional one: the number of
   positions holding a tower taller than 0 and than every tower before it.
   */
  lemma {:induction false} VisibleIsSeenCount(line: seq<int>, k: nat)
    requires k <= |line|
    ensures Visible(line[..k], 0) == SeenCount(line, k)
  {
    if k > 0 {
      VisibleIsSeenCount(line, k - 1);
      assert line[..k] == line[..k - 1] + [line[k - 1]];
      VisibleSnoc(line[..k - 1], 0, line[k - 1]);
      TallerThanTallest(line[..k - 1], 0, line[k - 1]);
    }
  }

  /** From either end, the visibility count is the number of towers seen from that end. */
  lemma VisibleCountIsSeenCount(line: seq<int>)
    ensures VisibleCount(line, true) == SeenCount(line, |line|)
    ensures VisibleCount(line, false) == SeenCount(Reversed(line), |line|)
  {
    assert line[..|line|] == line;
    VisibleIsSeenCount(line, |line|);
    var r := Reversed(line);
    assert r[..|r|] == r;
    VisibleIsSeenCount(r, |r|);
  }

  /** The worked example: [3,1,4,2] shows 2 towers from either end. */
  lemma VisibleExample()
    ensures VisibleCount([3, 1, 4, 2], true) == 2
    ensures VisibleCount([3, 1, 4, 2], false) == 2
  {
    assert Reversed([3, 1, 4, 2]) == [2, 4, 1, 3] by {
      assert [3, 1, 4, 2][..3] == [3, 1, 4];
      assert [3, 1, 4][..2] == [3, 1];
      assert [3, 1][..1] == [3];
    }
  }

  // ---------------------------------------------------------------------
  // First-best scans in row-major order
  // ---------------------------------------------------------------------

  /** (`r1`, `c1`) comes strictly before (`r2`, `c2`) in row-major order. */
  predicate Before(r1: int, c1: int, r2: int, c2: int) {
    r1 < r2 || (r1 == r2 && c1 < c2)
  }

  /**
   (`row`, `col`) is what a scan of the empty cells in row-major order that
   replaces its running best only on a strictly greater `score` ends with:
   an empty cell scoring at least as much as every empty cell, and strictly
   more than every empty cell before it.
   */
  ghost predicate FirstBestCell(g: Grid, score: (Index, Index) -> real, row: Index, col: Index) {
    g[row][col] == 0 &&
    (forall r: Index, c: Index :: g[r][c] == 0 ==> score(r, c) <= score(row, col)) &&
    (forall r: Index, c: Index :: g[r][c] == 0 && Before(r, c, row, col) ==> score(r, c) < score(row, col))
  }

  /** (`r1`, `c1`, `v1`) comes strictly before (`r2`, `c2`, `v2`): row-major, then ascending value. */
  predicate BeforePlacement(r1: int, c1: int, v1: int, r2: int, c2: int, v2: int) {
    Before(r1, c1, r2, c2) || (r1 == r2 && c1 == c2 && v1 < v2)
  }

  /**
   The same for a scan over legal (cell, height) pairs in row-major, then
   ascending-height order.
   */
  ghost predicate FirstBestPlacement(g: Grid, score: (Index, Index, int) -> real, m: Move) {
    IsLegalMove(g, m.row, m.col, m.value) &&
    (forall r: Index, c: Index, v :: IsLegalMove(g, r, c, v) ==> score(r, c, v) <= score(m.row, m.col, m.value)) &&
    (forall r: Index, c: Index, v ::
       IsLegalMove(g, r, c, v) && BeforePlacement(r, c, v, m.row, m.col, m.value) ==>
       score(r, c, v) < score(m.row, m.col, m.value))
  }

  /**
   The running best of that scan once every cell before (`r`, `c`) has been
   visited: (`row`, `col`) is an earlier empty cell scoring at least as much
   as every visited empty cell, and strictly more than every one before it.
   */
  ghost predicate BestBefore(g: Grid, score: (Index, Index) -> real, row: Index, col: Index, r: int, c: int) {
    Before(row, col, r, c) && g[row][col] == 0 &&
    (forall r': Index, c': Index :: g[r'][c'] == 0 && Before(r', c', r, c) ==> score(r', c') <= score(row, col)) &&
    (forall r': Index, c': Index :: g[r'][c'] == 0 && Before(r', c', row, col) ==> score(r', c') < score(row, col))
  }

  /** No empty cell comes before (`r`, `c`). */
  ghost predicate NoEmptyBefore(g: Grid, r: int, c: int) {
    forall r': Index, c': Index :: Before(r', c', r, c) ==> g[r'][c'] != 0
  }

  /** The first empty cell met starts the running best. */
  lemma BestBeforeFirst(g: Grid, score: (Index, Index) -> real, r: Index, c: Index)
    requires NoEmptyBefore(g, r, c) && g[r][c] == 0
    ensures BestBefore(g, score, r, c, r, c + 1)
  {
  }

  /** A visited cell that is filled or scores no more than the running best leaves it in place. */
  lemma BestBeforeKeep(g: Grid, score: (Index, Index) -> real, row: Index, col: Index, r: Index, c: Index)
    requires BestBefore(g, score, row, col, r, c)
    requires g[r][c] == 0 ==> score(r, c) <= score(row, col)
    ensures BestBefore(g, score, row, col, r, c + 1)
  {
  }

  /** A visited empty cell scoring strictly more than the running best replaces it. */
  lemma BestBeforeReplace(g: Grid, score: (Index, Index) -> real, row: Index, col: Index, r: Index, c: Index)
    requires BestBefore(g, score, row, col, r, c)
    requires g[r][c] == 0 && score(r, c) > score(row, col)
    ensures BestBefore(g, score, r, c, r, c + 1)
  {
  }

  /** Visiting a filled cell keeps "no empty cell yet". */
  lemma NoEmptyBeforeStep(g: Grid, r: Index, c: Index)
    requires NoEmptyBefore(g, r, c) && g[r][c] != 0
    ensures NoEmptyBefore(g, r, c + 1)
  {
  }

  /** The end of a row is the start of the next one. */
  lemma EndOfRow(g: Grid, score: (Index, Index) -> real, row: Index, col: Index, r: Index)
    ensures BestBefore(g, score, row, col, r, N) <==> BestBefore(g, score, row, col, r + 1, 0)
    ensures NoEmptyBefore(g, r, N) <==> NoEmptyBefore(g, r + 1, 0)
  {
  }

  /** Once every cell is visited the running best is the first-best cell. */
  lemma EndOfScan(g: Grid, score: (Index, Index) -> real, row: Index, col: Index)
    ensures BestBefore(g, score, row, col, N, 0) ==> FirstBestCell(g, score, row, col)
    ensures NoEmptyBefore(g, N, 0) ==> forall r: Index, c: Index :: g[r][c] != 0
  {
  }

  /** A first-best cell is determined by the board and the score: there is at most one. */
  lemma FirstBestCellUnique(g: Grid, score: (Index, Index) -> real, r1: Index, c1: Index, r2: Index, c2: Index)
    requires FirstBestCell(g, score, r1, c1) && FirstBestCell(g, score, r2, c2)
    ensures r1 == r2 && c1 == c2
  {
    assert !Before(r1, c1, r2, c2) && !Before(r2, c2, r1, c1);
  }

  /** The running best of the scan over legal placements before (`r`, `c`, `v`). */
  ghost predicate BestPlacementBefore(g: Grid, score: (Index, Index, int) -> real, m: Move, r: int, c: int, v: int) {
    BeforePlacement(m.row, m.col, m.value, r, c, v) && IsLegalMove(g, m.row, m.col, m.value) &&
    (forall r': Index, c': Index, v' :: IsLegalMove(g, r', c', v') && BeforePlacement(r', c', v', r, c, v) ==>
       score(r', c', v') <= score(m.row, m.col, m.value)) &&
    (forall r': Index, c': Index, v' :: IsLegalMove(g, r', c', v') && BeforePlacement(r', c', v', m.row, m.col, m.value) ==>
       score(r', c', v') < score(m.row, m.col, m.value))
  }

  /** No legal placement comes before (`r`, `c`, `v`). */
  ghost predicate NoLegalBefore(g: Grid, r: int, c: int, v: int) {
    forall r': Index, c': Index, v' :: BeforePlacement(r', c', v', r, c, v) ==> !IsLegalMove(g, r', c', v')
  }

  /** The first legal placement met starts the running best. */
  lemma BestPlacementFirst(g: Grid, score: (Index, Index, int) -> real, r: Index, c: Index, v: int)
    requires NoLegalBefore(g, r, c, v) && IsLegalMove(g, r, c, v)
    ensures BestPlacementBefore(g, score, Move(r, c, v), r, c, v + 1)
  {
  }

  /** A visited pair that is illegal or scores no more than the running best leaves it in place. */
  lemma BestPlacementKeep(g: Grid, score: (Index, Index, int) -> real, m: Move, r: Index, c: Index, v: int)
    requires BestPlacementBefore(g, score, m, r, c, v)
    requires IsLegalMove(g, r, c, v) ==> score(r, c, v) <= score(m.row, m.col, m.value)
    ensures BestPlacementBefore(g, score, m, r, c, v + 1)
  {
  }

  /** A visited legal pair scoring strictly more than the running best replaces it. */
  lemma BestPlacementReplace(g: Grid, score: (Index, Index, int) -> real, m: Move, r: Index, c: Index, v: int)
    requires BestPlacementBefore(g, score, m, r, c, v)
    requires IsLegalMove(g, r, c, v) && score(r, c, v) > score(m.row, m.col, m.value)
    ensures BestPlacementBefore(g, score, Move(r, c, v), r, c, v + 1)
  {
  }

  /** Visiting an illegal pair keeps "no legal placement yet". */
  lemma NoLegalBeforeStep(g: Grid, r: Index, c: Index, v: int)
    requires NoLegalBefore(g, r, c, v) && !IsLegalMove(g, r, c, v)
    ensures NoLegalBefore(g, r, c, v + 1)
  {
  }

  /**
   Heights start at 1, so the positions before height 0 and before height 1
   of a cell hold the same legal placements; after height N come the next
   cell's; a filled cell holds none; and the end of a row is the start of the
   next.
   */
  lemma PlacementPositions(g: Grid, score: (Index, Index, int) -> real, m: Move, r: Index, c: Index)
    ensures BestPlacementBefore(g, score, m, r, c, 0) <==> BestPlacementBefore(g, score, m, r, c, 1)
    ensures NoLegalBefore(g, r, c, 0) <==> NoLegalBefore(g, r, c, 1)
    ensures BestPlacementBefore(g, score, m, r, c, N + 1) <==> BestPlacementBefore(g, score, m, r, c + 1, 0)
    ensures NoLegalBefore(g, r, c, N + 1) <==> NoLegalBefore(g, r, c + 1, 0)
    ensures g[r][c] != 0 ==>
      (BestPlacementBefore(g, score, m, r, c, 0) <==> BestPlacementBefore(g, score, m, r, c + 1, 0))
    ensures g[r][c] != 0 ==> (NoLegalBefore(g, r, c, 0) <==> NoLegalBefore(g, r, c + 1, 0))
    ensures BestPlacementBefore(g, score, m, r, N, 0) <==> BestPlacementBefore(g, score, m, r + 1, 0, 0)
    ensures NoLegalBefore(g, r, N, 0) <==> NoLegalBefore(g, r + 1, 0, 0)
  {
  }

  /** Once every pair is visited the running best is the first-best placement. */
  lemma EndOfPlacementScan(g: Grid, score: (Index, Index, int) -> real, m: Move)
    ensures BestPlacementBefore(g, score, m, N, 0, 0) ==> FirstBestPlacement(g, score, m)
    ensures NoLegalBefore(g, N, 0, 0) ==> !AnyLegalMove(g)
  {
  }
}
