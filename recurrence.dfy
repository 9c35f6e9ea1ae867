// The dynamic-programming recurrence of the aligner as a pure reference
// definition, the cost of an alignment path under it, and the fact that no
// path costs more than the matrix's final cell.

module Recurrence {
  import opened Scoring
  import opened Paths

  /** One matrix cell: its score and its recorded gap state. */
  datatype Entry = Entry(score: int, gap: GapState)

  /** The value of `max([d, v, h])`. */
  function Max3(d: int, v: int, h: int): (r: int)
    ensures r >= d && r >= v && r >= h
    ensures r == d || r == v || r == h
  {
    if d >= v && d >= h then d else if v >= h then v else h
  }

  /**
   * The gap state the fill records for a cell whose best score is `best`, given
   * the vertical and horizontal candidates: the horizontal test runs first and the
   * vertical one second, so a vertical tie overrides a horizontal one; when neither
   * candidate attains `best` the cell keeps `prior`.
   */
  function Record(best: int, v: int, h: int, prior: GapState): (g: GapState)
    ensures best == v ==> g == GapState(true, {V})
    ensures best != v && best == h ==> g == GapState(true, {H})
    ensures best != v && best != h ==> g == prior
  {
    var afterH := if best == h then GapState(true, {H}) else prior;
    if best == v then GapState(true, {V}) else afterH
  }

  /**
   * The entry the fill writes into a cell whose symbol pair is (x, y), given the
   * scores of its diagonal, upper and left neighbours, the gap states of the upper
   * and left ones, and the gap state the cell held before.
   */
  function FillStep(p: Params, x: char, y: char, diag: int, up: int, upGap: GapState,
                    left: int, leftGap: GapState, prior: GapState): (e: Entry)
    ensures e.score >= diag + IsMatch(p, x, y)
    ensures e.score >= up + GapCost(p, upGap, V) && e.score >= left + GapCost(p, leftGap, H)
    ensures e.score == diag + IsMatch(p, x, y) || e.score == up + GapCost(p, upGap, V) ||
            e.score == left + GapCost(p, leftGap, H)
    ensures e.score == up + GapCost(p, upGap, V) ==> e.gap == GapState(true, {V})
    ensures e.score != up + GapCost(p, upGap, V) && e.score == left + GapCost(p, leftGap, H) ==>
              e.gap == GapState(true, {H})
    ensures e.score != up + GapCost(p, upGap, V) && e.score != left + GapCost(p, leftGap, H) ==> e.gap == prior
  {
    var d := diag + IsMatch(p, x, y);
    var v := up + GapCost(p, upGap, V);
    var h := left + GapCost(p, leftGap, H);
    var best := Max3(d, v, h);
    Entry(best, Record(best, v, h, prior))
  }

  /**
   * Cell (i, j) of the matrices that initialisation and fill build for a (the
   * columns) and b (the rows). Row and column 0 accumulate gap costs; every
   * interior cell takes the best of its three candidates.
   */
  ghost function Cell(p: Params, a: seq<char>, b: seq<char>, i: nat, j: nat): Entry
    requires i <= |b| && j <= |a|
    decreases i + j
  {
    if i == 0 && j == 0 then Entry(0, NoGap)
    else if j == 0 then
      var up := Cell(p, a, b, i - 1, 0);
      Entry(up.score + GapCost(p, up.gap, V), GapState(true, {V}))
    else if i == 0 then
      var left := Cell(p, a, b, 0, j - 1);
      Entry(left.score + GapCost(p, left.gap, H), GapState(true, {H}))
    else
      var up := Cell(p, a, b, i - 1, j);
      var left := Cell(p, a, b, i, j - 1);
      FillStep(p, a[j - 1], b[i - 1], Cell(p, a, b, i - 1, j - 1).score, up.score, up.gap, left.score, left.gap, NoGap)
  }

  /** The diagonal candidate of interior cell (i, j). */
  ghost function DiagonalCandidate(p: Params, a: seq<char>, b: seq<char>, i: nat, j: nat): int
    requires 1 <= i <= |b| && 1 <= j <= |a|
  {
    Cell(p, a, b, i - 1, j - 1).score + IsMatch(p, a[j - 1], b[i - 1])
  }

  /** The vertical-gap candidate of interior cell (i, j). */
  ghost function VerticalCandidate(p: Params, a: seq<char>, b: seq<char>, i: nat, j: nat): int
    requires 1 <= i <= |b| && 1 <= j <= |a|
  {
    Cell(p, a, b, i - 1, j).score + GapCost(p, Cell(p, a, b, i - 1, j).gap, V)
  }

  /** The horizontal-gap candidate of interior cell (i, j). */
  ghost function HorizontalCandidate(p: Params, a: seq<char>, b: seq<char>, i: nat, j: nat): int
    requires 1 <= i <= |b| && 1 <= j <= |a|
  {
    Cell(p, a, b, i, j - 1).score + GapCost(p, Cell(p, a, b, i, j - 1).gap, H)
  }

  /**
   * The move the reference backtrack takes back out of interior cell (i, j):
   * diagonal when the diagonal neighbour scores the cell's score minus the pair
   * score, else vertical when the upper neighbour scores the cell's score minus the
   * gap cost read from its gap state, else horizontal, whose test then succeeds:
   * one of the three always does.
   */
  ghost function GreedyMove(p: Params, a: seq<char>, b: seq<char>, i: nat, j: nat): (m: Move)
    requires 1 <= i <= |b| && 1 <= j <= |a|
    ensures var here, up, left := Cell(p, a, b, i, j).score, Cell(p, a, b, i - 1, j), Cell(p, a, b, i, j - 1);
      (m == Diagonal <==> Cell(p, a, b, i - 1, j - 1).score == here - IsMatch(p, a[j - 1], b[i - 1])) &&
      (m == Vertical <==> m != Diagonal && up.score == here - GapCost(p, up.gap, V)) &&
      (m == Horizontal ==> left.score == here - GapCost(p, left.gap, H))
  {
    CellIsBest(p, a, b, i, j);
    var here, up := Cell(p, a, b, i, j).score, Cell(p, a, b, i - 1, j);
    if Cell(p, a, b, i - 1, j - 1).score == here - IsMatch(p, a[j - 1], b[i - 1]) then Diagonal
    else if up.score == here - GapCost(p, up.gap, V) then Vertical
    else Horizontal
  }

  /**
   * The reference backtrack: the path from the origin to cell (i, j) whose last move
   * is the one `GreedyMove` takes out of (i, j); on row 0 it moves left and on
   * column 0 up.
   */
  ghost function Greedy(p: Params, a: seq<char>, b: seq<char>, i: nat, j: nat): (path: seq<Move>)
    requires i <= |b| && j <= |a|
    ensures CountB(path) == i && CountA(path) == j
    decreases i + j
  {
    if i > 0 && j > 0 then
      var m := GreedyMove(p, a, b, i, j);
      Extend(Greedy(p, a, b, if m == Horizontal then i else i - 1, if m == Vertical then j else j - 1), m)
    else if i == 0 && j > 0 then Extend(Greedy(p, a, b, 0, j - 1), Horizontal)
    else if i > 0 then Extend(Greedy(p, a, b, i - 1, 0), Vertical)
    else []
  }

  /** On row 0 the reference backtrack only moves left. */
  lemma {:induction false} GreedyRow(p: Params, a: seq<char>, b: seq<char>, j: nat)
    requires j <= |a|
    ensures Greedy(p, a, b, 0, j) == Run(Horizontal, j)
  {
    if j > 0 {
      GreedyRow(p, a, b, j - 1);
      RunSnoc(Horizontal, j - 1);
    }
  }

  /** On column 0 the reference backtrack only moves up. */
  lemma {:induction false} GreedyColumn(p: Params, a: seq<char>, b: seq<char>, i: nat)
    requires i <= |b|
    ensures Greedy(p, a, b, i, 0) == Run(Vertical, i)
  {
    if i > 0 {
      GreedyColumn(p, a, b, i - 1);
      RunSnoc(Vertical, i - 1);
    }
  }

  /** Column 0: a run of i vertical gaps costs one opening and i - 1 extensions. */
  lemma {:induction false} ColumnEdge(p: Params, a: seq<char>, b: seq<char>, i: nat)
    requires 1 <= i <= |b|
    ensures Cell(p, a, b, i, 0).score == p.gapOpen + (i - 1) * p.gapExtend
    ensures Cell(p, a, b, i, 0).gap == GapState(true, {V})
  {
    if i > 1 {
      ColumnEdge(p, a, b, i - 1);
      assert (i - 1) * p.gapExtend == (i - 2) * p.gapExtend + p.gapExtend;
    }
  }

  /** Row 0: a run of j horizontal gaps costs one opening and j - 1 extensions. */
  lemma {:induction false} RowEdge(p: Params, a: seq<char>, b: seq<char>, j: nat)
    requires 1 <= j <= |a|
    ensures Cell(p, a, b, 0, j).score == p.gapOpen + (j - 1) * p.gapExtend
    ensures Cell(p, a, b, 0, j).gap == GapState(true, {H})
  {
    if j > 1 {
      RowEdge(p, a, b, j - 1);
      assert (j - 1) * p.gapExtend == (j - 2) * p.gapExtend + p.gapExtend;
    }
  }

  /** An interior cell scores the largest of its three candidates, and attains one of them. */
  lemma CellIsBest(p: Params, a: seq<char>, b: seq<char>, i: nat, j: nat)
    requires 1 <= i <= |b| && 1 <= j <= |a|
    ensures Cell(p, a, b, i, j).score >= DiagonalCandidate(p, a, b, i, j)
    ensures Cell(p, a, b, i, j).score >= VerticalCandidate(p, a, b, i, j)
    ensures Cell(p, a, b, i, j).score >= HorizontalCandidate(p, a, b, i, j)
    ensures Cell(p, a, b, i, j).score in
              {DiagonalCandidate(p, a, b, i, j), VerticalCandidate(p, a, b, i, j), HorizontalCandidate(p, a, b, i, j)}
  {
  }

  /**
   * The gap state of an interior cell records the winning move: vertical when the
   * vertical candidate attains the score, else horizontal when the horizontal one
   * does, else no gap (the diagonal alone wins).
   */
  lemma GapRecordsWinner(p: Params, a: seq<char>, b: seq<char>, i: nat, j: nat)
    requires 1 <= i <= |b| && 1 <= j <= |a|
    ensures var e := Cell(p, a, b, i, j);
      (e.gap == GapState(true, {V}) <==> e.score == VerticalCandidate(p, a, b, i, j)) &&
      (e.gap == GapState(true, {H}) <==>
        e.score != VerticalCandidate(p, a, b, i, j) && e.score == HorizontalCandidate(p, a, b, i, j)) &&
      (e.gap == NoGap <==>
        e.score == DiagonalCandidate(p, a, b, i, j) &&
        e.score != VerticalCandidate(p, a, b, i, j) && e.score != HorizontalCandidate(p, a, b, i, j))
  {
  }

  /**
   * Every gap state is one of three shapes; the origin is unflagged and the border
   * cells are flagged in their single direction.
   */
  lemma {:induction false} GapStateShape(p: Params, a: seq<char>, b: seq<char>, i: nat, j: nat)
    requires i <= |b| && j <= |a|
    ensures var g := Cell(p, a, b, i, j).gap;
      g == NoGap || g == GapState(true, {V}) || g == GapState(true, {H})
    ensures var g := Cell(p, a, b, i, j).gap;
      g.gapped <==> g.dirs != {}
    ensures i == 0 && j == 0 ==> Cell(p, a, b, i, j).gap == NoGap
    ensures i >= 1 && j == 0 ==> Cell(p, a, b, i, j).gap == GapState(true, {V})
    ensures i == 0 && j >= 1 ==> Cell(p, a, b, i, j).gap == GapState(true, {H})
  {
  }

  /**
   * Cost of move `m` out of cell (i, j) whose gap state is `g`: a diagonal move
   * costs the score of its pair, a gap move the gap cost read from `g`.
   */
  function StepCost(p: Params, a: seq<char>, b: seq<char>, m: Move, i: nat, j: nat, g: GapState): int
    requires RowAfter(m, i) <= |b| && ColumnAfter(m, j) <= |a|
  {
    match m
    case Diagonal => IsMatch(p, a[j], b[i])
    case Vertical => GapCost(p, g, V)
    case Horizontal => GapCost(p, g, H)
  }

  /** Cost of following `path` forward from cell (i, j) to the final cell, under the reference gap states. */
  ghost function SegCost(p: Params, a: seq<char>, b: seq<char>, path: seq<Move>, i: nat, j: nat): int
    requires i + CountB(path) == |b| && j + CountA(path) == |a|
    decreases |path|
  {
    if path == [] then 0
    else
      StepCost(p, a, b, path[0], i, j, Cell(p, a, b, i, j).gap)
      + SegCost(p, a, b, path[1..], RowAfter(path[0], i), ColumnAfter(path[0], j))
  }

  /** A diagonal move into an interior cell never beats that cell's score. */
  lemma DiagonalStep(p: Params, a: seq<char>, b: seq<char>, i: nat, j: nat)
    requires i < |b| && j < |a|
    ensures Cell(p, a, b, i + 1, j + 1).score >= Cell(p, a, b, i, j).score + IsMatch(p, a[j], b[i])
  {
    CellIsBest(p, a, b, i + 1, j + 1);
  }

  /** A vertical move never beats the score of the cell it enters; down column 0 it attains it. */
  lemma VerticalStep(p: Params, a: seq<char>, b: seq<char>, i: nat, j: nat)
    requires i < |b| && j <= |a|
    ensures Cell(p, a, b, i + 1, j).score >= Cell(p, a, b, i, j).score + GapCost(p, Cell(p, a, b, i, j).gap, V)
    ensures j == 0 ==>
      Cell(p, a, b, i + 1, j).score == Cell(p, a, b, i, j).score + GapCost(p, Cell(p, a, b, i, j).gap, V)
  {
    if j > 0 { CellIsBest(p, a, b, i + 1, j); }
  }

  /** A horizontal move never beats the score of the cell it enters; along row 0 it attains it. */
  lemma HorizontalStep(p: Params, a: seq<char>, b: seq<char>, i: nat, j: nat)
    requires i <= |b| && j < |a|
    ensures Cell(p, a, b, i, j + 1).score >= Cell(p, a, b, i, j).score + GapCost(p, Cell(p, a, b, i, j).gap, H)
    ensures i == 0 ==>
      Cell(p, a, b, i, j + 1).score == Cell(p, a, b, i, j).score + GapCost(p, Cell(p, a, b, i, j).gap, H)
  {
    if i > 0 { CellIsBest(p, a, b, i, j + 1); }
  }

  /**
   * One step along a path never gains more than the matrix does: the cell a move
   * enters scores at least the cell it leaves plus the move's cost.
   */
  lemma StepBound(p: Params, a: seq<char>, b: seq<char>, m: Move, i: nat, j: nat)
    requires RowAfter(m, i) <= |b| && ColumnAfter(m, j) <= |a|
    ensures Cell(p, a, b, RowAfter(m, i), ColumnAfter(m, j)).score
              >= Cell(p, a, b, i, j).score + StepCost(p, a, b, m, i, j, Cell(p, a, b, i, j).gap)
  {
    match m
    case Diagonal => DiagonalStep(p, a, b, i, j);
    case Vertical => VerticalStep(p, a, b, i, j);
    case Horizontal => HorizontalStep(p, a, b, i, j);
  }

  /**
   * No path from cell (i, j) to the final cell gains more than the final cell's
   * score exceeds cell (i, j)'s: the final cell is optimal over all paths under the
   * recorded gap states.
   */
  lemma {:induction false} NoPathBeatsCell(p: Params, a: seq<char>, b: seq<char>, path: seq<Move>, i: nat, j: nat)
    requires i + CountB(path) == |b| && j + CountA(path) == |a|
    ensures Cell(p, a, b, i, j).score + SegCost(p, a, b, path, i, j) <= Cell(p, a, b, |b|, |a|).score
    decreases |path|
  {
    if path != [] {
      StepBound(p, a, b, path[0], i, j);
      NoPathBeatsCell(p, a, b, path[1..], RowAfter(path[0], i), ColumnAfter(path[0], j));
    }
  }
}
