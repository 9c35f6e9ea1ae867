// The imperative alignment engine: matrix initialisation, the in-place fill,
// the backtrack that renders the alignment, and the whole run.

module Alignment {
  import opened Scoring
  import opened Paths
  import opened Recurrence

  /** The result of one run: the score of the final cell and the three rendered rows. */
  datatype Trace = Trace(score: int, top: string, marker: string, bottom: string)

  /** Why a run produces no alignment. */
  datatype AlignError = EmptySequence

  datatype Result<T> = Ok(value: T) | Err(error: AlignError)

  /**
   * The matrices as initialisation leaves them: rows and columns 0 hold accumulated
   * gap costs, flagged vertical down column 0 and horizontal along row 0; the origin
   * and every interior cell hold 0 and no gap.
   */
  ghost predicate Initial(p: Params, M: array2<int>, G: array2<GapState>)
    reads M, G
  {
    M.Length0 == G.Length0 && M.Length1 == G.Length1 &&
    M.Length0 >= 1 && M.Length1 >= 1 &&
    M[0, 0] == 0 && G[0, 0] == NoGap &&
    (forall i :: 1 <= i < M.Length0 ==>
      M[i, 0] == p.gapOpen + (i - 1) * p.gapExtend && G[i, 0] == GapState(true, {V})) &&
    (forall j :: 1 <= j < M.Length1 ==>
      M[0, j] == p.gapOpen + (j - 1) * p.gapExtend && G[0, j] == GapState(true, {H})) &&
    (forall i, j :: 1 <= i < M.Length0 && 1 <= j < M.Length1 ==> M[i, j] == 0 && G[i, j] == NoGap)
  }

  /** The matrices hold, cell by cell, the reference recurrence for a and b. */
  ghost predicate Tabulates(p: Params, a: seq<char>, b: seq<char>, M: array2<int>, G: array2<GapState>)
    reads M, G
  {
    M.Length0 == G.Length0 == |b| + 1 && M.Length1 == G.Length1 == |a| + 1 &&
    forall i, j {:trigger M[i, j]} :: 0 <= i <= |b| && 0 <= j <= |a| ==> Entry(M[i, j], G[i, j]) == Cell(p, a, b, i, j)
  }

  /**
   * Builds a `rows` x `columns` score matrix and gap-state matrix and fills row 0 and
   * column 0 with accumulated gap costs. The original indexes cells (1, 0) and (0, 1)
   * before anything else, so both dimensions must be at least 2.
   */
  method InitMatrix(p: Params, rows: nat, columns: nat) returns (M: array2<int>, G: array2<GapState>)
    requires rows >= 2 && columns >= 2
    ensures fresh(M) && fresh(G)
    ensures M.Length0 == rows && M.Length1 == columns
    ensures Initial(p, M, G)
  {
    M := new int[rows, columns]((i, j) => 0);
    G := new GapState[rows, columns]((i, j) => NoGap);
    G[1, 0] := NoGap;
    G[0, 1] := NoGap;
    InitColumn(p, M, G);
    InitRow(p, M, G);
  }

  /** Fills column 0 below the origin with accumulated vertical gap costs; every other cell is left as it was. */
  method InitColumn(p: Params, M: array2<int>, G: array2<GapState>)
    requires M.Length0 == G.Length0 >= 2 && M.Length1 == G.Length1 >= 2
    requires M[0, 0] == 0 && G[0, 0] == NoGap
    modifies M, G
    ensures forall r, c :: 0 <= r < M.Length0 && 0 <= c < M.Length1 && (c > 0 || r == 0) ==>
              M[r, c] == old(M[r, c]) && G[r, c] == old(G[r, c])
    ensures forall r :: 1 <= r < M.Length0 ==>
              M[r, 0] == p.gapOpen + (r - 1) * p.gapExtend && G[r, 0] == GapState(true, {V})
  {
    for i := 1 to M.Length0
      invariant forall r, c :: 0 <= r < M.Length0 && 0 <= c < M.Length1 && (c > 0 || r == 0 || r >= i) ==>
                  M[r, c] == old(M[r, c]) && G[r, c] == old(G[r, c])
      invariant forall r :: 1 <= r < i ==>
                  M[r, 0] == p.gapOpen + (r - 1) * p.gapExtend && G[r, 0] == GapState(true, {V})
    {
      if i > 1 {
        assert (i - 1) * p.gapExtend == (i - 2) * p.gapExtend + p.gapExtend;
      }
      M[i, 0] := M[i - 1, 0] + GapCost(p, G[i - 1, 0], V);
      G[i, 0] := GapState(true, {V});
    }
  }

  /** Fills row 0 right of the origin with accumulated horizontal gap costs; every other cell is left as it was. */
  method InitRow(p: Params, M: array2<int>, G: array2<GapState>)
    requires M.Length0 == G.Length0 >= 2 && M.Length1 == G.Length1 >= 2
    requires M[0, 0] == 0 && G[0, 0] == NoGap
    modifies M, G
    ensures forall r, c :: 0 <= r < M.Length0 && 0 <= c < M.Length1 && (r > 0 || c == 0) ==>
              M[r, c] == old(M[r, c]) && G[r, c] == old(G[r, c])
    ensures forall c :: 1 <= c < M.Length1 ==>
              M[0, c] == p.gapOpen + (c - 1) * p.gapExtend && G[0, c] == GapState(true, {H})
  {
    for j := 1 to M.Length1
      invariant forall r, c :: 0 <= r < M.Length0 && 0 <= c < M.Length1 && (r > 0 || c == 0 || c >= j) ==>
                  M[r, c] == old(M[r, c]) && G[r, c] == old(G[r, c])
      invariant forall c :: 1 <= c < j ==>
                  M[0, c] == p.gapOpen + (c - 1) * p.gapExtend && G[0, c] == GapState(true, {H})
    {
      if j > 1 {
        assert (j - 1) * p.gapExtend == (j - 2) * p.gapExtend + p.gapExtend;
      }
      M[0, j] := M[0, j - 1] + GapCost(p, G[0, j - 1], H);
      G[0, j] := GapState(true, {H});
    }
  }

  /** The border of initialised matrices already holds the reference recurrence. */
  lemma InitialBorder(p: Params, a: seq<char>, b: seq<char>, M: array2<int>, G: array2<GapState>, i: nat, j: nat)
    requires Initial(p, M, G) && M.Length0 == |b| + 1 && M.Length1 == |a| + 1
    requires i <= |b| && j <= |a| && (i == 0 || j == 0)
    ensures Entry(M[i, j], G[i, j]) == Cell(p, a, b, i, j)
  {
    if i > 0 {
      ColumnEdge(p, a, b, i);
    } else if j > 0 {
      RowEdge(p, a, b, j);
    }
  }

  /**
   * Fills every interior cell, row by row, with the best of its diagonal, vertical
   * and horizontal candidates, reading neighbours that are already final, and
   * records the gap state of the winner. The caller hands over matrices whose border
   * already holds the reference recurrence and whose interior records no gap, as
   * initialised matrices do (`InitialBorder`). Row and column 0 are left as they were.
   */
  method Fill(p: Params, M: array2<int>, G: array2<GapState>, a: seq<char>, b: seq<char>)
    requires M.Length0 == G.Length0 == |b| + 1 && M.Length1 == G.Length1 == |a| + 1
    requires forall i, j {:trigger M[i, j]} :: 0 <= i <= |b| && 0 <= j <= |a| && (i == 0 || j == 0) ==>
               Entry(M[i, j], G[i, j]) == Cell(p, a, b, i, j)
    requires forall i, j :: 1 <= i <= |b| && 1 <= j <= |a| ==> G[i, j] == NoGap
    modifies M, G
    ensures forall i, j :: 0 <= i <= |b| && 0 <= j <= |a| && (i == 0 || j == 0) ==>
              M[i, j] == old(M[i, j]) && G[i, j] == old(G[i, j])
    ensures Tabulates(p, a, b, M, G)
  {
    for i := 1 to M.Length0
      invariant forall r, c {:trigger M[r, c]} :: 0 <= r <= |b| && 0 <= c <= |a| && (r == 0 || c == 0 || r < i) ==>
                  Entry(M[r, c], G[r, c]) == Cell(p, a, b, r, c)
      invariant forall r, c :: i <= r <= |b| && 1 <= c <= |a| ==> G[r, c] == NoGap
      invariant forall r, c :: 0 <= r <= |b| && 0 <= c <= |a| && (r == 0 || c == 0) ==>
                  M[r, c] == old(M[r, c]) && G[r, c] == old(G[r, c])
    {
      FillRow(p, M, G, a, b, i);
    }
  }

  /**
   * Fills interior row i left to right (the inner loop of the fill), reading row
   * i - 1 and cell (i, 0), which already hold the reference recurrence. Every other
   * cell is left as it was.
   */
  method FillRow(p: Params, M: array2<int>, G: array2<GapState>, a: seq<char>, b: seq<char>, i: nat)
    requires M.Length0 == G.Length0 == |b| + 1 && M.Length1 == G.Length1 == |a| + 1
    requires 1 <= i <= |b|
    requires forall r, c {:trigger M[r, c]} :: r == i - 1 && 0 <= c <= |a| ==> Entry(M[r, c], G[r, c]) == Cell(p, a, b, r, c)
    requires Entry(M[i, 0], G[i, 0]) == Cell(p, a, b, i, 0)
    requires forall c :: 1 <= c <= |a| ==> G[i, c] == NoGap
    modifies M, G
    ensures forall r, c :: 0 <= r <= |b| && 0 <= c <= |a| && !(r == i && 1 <= c) ==>
              M[r, c] == old(M[r, c]) && G[r, c] == old(G[r, c])
    ensures forall c :: 0 <= c <= |a| ==> Entry(M[i, c], G[i, c]) == Cell(p, a, b, i, c)
  {
    for j := 1 to M.Length1
      invariant forall r, c :: 0 <= r <= |b| && 0 <= c <= |a| && !(r == i && 1 <= c < j) ==>
                  M[r, c] == old(M[r, c]) && G[r, c] == old(G[r, c])
      invariant forall c :: 0 <= c < j ==> Entry(M[i, c], G[i, c]) == Cell(p, a, b, i, c)
    {
      FillStepIsCell(p, a, b, i, j, M[i - 1, j - 1], Entry(M[i - 1, j], G[i - 1, j]),
                     Entry(M[i, j - 1], G[i, j - 1]), G[i, j]);
      FillCell(p, M, G, a, b, i, j);
    }
  }

  /**
   * One step of the fill: the best of the diagonal, vertical and horizontal
   * candidates of cell (i, j) goes into the score matrix; the gap state becomes
   * horizontal when the horizontal candidate attains it and then vertical when the
   * vertical one does. Every other cell is left as it was.
   */
  method FillCell(p: Params, M: array2<int>, G: array2<GapState>, a: seq<char>, b: seq<char>, i: nat, j: nat)
    requires M.Length0 == G.Length0 == |b| + 1 && M.Length1 == G.Length1 == |a| + 1
    requires 1 <= i <= |b| && 1 <= j <= |a|
    modifies M, G
    ensures Entry(M[i, j], G[i, j]) ==
              FillStep(p, a[j - 1], b[i - 1], old(M[i - 1, j - 1]), old(M[i - 1, j]), old(G[i - 1, j]),
                       old(M[i, j - 1]), old(G[i, j - 1]), old(G[i, j]))
    ensures forall r, c :: 0 <= r <= |b| && 0 <= c <= |a| && (r != i || c != j) ==>
              M[r, c] == old(M[r, c]) && G[r, c] == old(G[r, c])
  {
    var diagonal := M[i - 1, j - 1] + IsMatch(p, a[j - 1], b[i - 1]);
    var vgap := M[i - 1, j] + GapCost(p, G[i - 1, j], V);
    var hgap := M[i, j - 1] + GapCost(p, G[i, j - 1], H);
    var best := Max3(diagonal, vgap, hgap);
    if best == hgap {
      G[i, j] := GapState(true, {H});
    }
    if best == vgap {
      G[i, j] := GapState(true, {V});
    }
    M[i, j] := best;
  }

  /**
   * The entry the fill computes for interior cell (i, j) from neighbours that hold
   * the reference recurrence, with no gap recorded before, is the reference entry.
   */
  lemma FillStepIsCell(p: Params, a: seq<char>, b: seq<char>, i: nat, j: nat,
                       diag: int, up: Entry, left: Entry, prior: GapState)
    requires 1 <= i <= |b| && 1 <= j <= |a|
    requires diag == Cell(p, a, b, i - 1, j - 1).score
    requires up == Cell(p, a, b, i - 1, j) && left == Cell(p, a, b, i, j - 1)
    requires prior == NoGap
    ensures FillStep(p, a[j - 1], b[i - 1], diag, up.score, up.gap, left.score, left.gap, prior) == Cell(p, a, b, i, j)
  {
  }

  /**
   * In tabulated matrices every interior cell holds the best of its three
   * candidates, computed from the neighbours' final entries, with the winner's gap
   * state; every border cell adds one gap cost to its predecessor.
   */
  lemma TabulatedRecurrence(p: Params, a: seq<char>, b: seq<char>, M: array2<int>, G: array2<GapState>)
    requires Tabulates(p, a, b, M, G)
    ensures forall i, j :: 1 <= i <= |b| && 1 <= j <= |a| ==>
              Entry(M[i, j], G[i, j]) ==
                FillStep(p, a[j - 1], b[i - 1], M[i - 1, j - 1], M[i - 1, j], G[i - 1, j], M[i, j - 1], G[i, j - 1], NoGap)
    ensures forall i :: 1 <= i <= |b| ==>
              M[i, 0] == M[i - 1, 0] + GapCost(p, G[i - 1, 0], V) && G[i, 0] == GapState(true, {V})
    ensures forall j :: 1 <= j <= |a| ==>
              M[0, j] == M[0, j - 1] + GapCost(p, G[0, j - 1], H) && G[0, j] == GapState(true, {H})
  {
    forall i, j | 1 <= i <= |b| && 1 <= j <= |a|
      ensures Entry(M[i, j], G[i, j]) ==
                FillStep(p, a[j - 1], b[i - 1], M[i - 1, j - 1], M[i - 1, j], G[i - 1, j], M[i, j - 1], G[i, j - 1], NoGap)
    {
      assert Entry(M[i - 1, j - 1], G[i - 1, j - 1]) == Cell(p, a, b, i - 1, j - 1);
      assert Entry(M[i - 1, j], G[i - 1, j]) == Cell(p, a, b, i - 1, j);
      assert Entry(M[i, j - 1], G[i, j - 1]) == Cell(p, a, b, i, j - 1);
      assert Entry(M[i, j], G[i, j]) == Cell(p, a, b, i, j);
    }
    forall i | 1 <= i <= |b|
      ensures M[i, 0] == M[i - 1, 0] + GapCost(p, G[i - 1, 0], V) && G[i, 0] == GapState(true, {V})
    {
      assert Entry(M[i - 1, 0], G[i - 1, 0]) == Cell(p, a, b, i - 1, 0);
      assert Entry(M[i, 0], G[i, 0]) == Cell(p, a, b, i, 0);
    }
    forall j | 1 <= j <= |a|
      ensures M[0, j] == M[0, j - 1] + GapCost(p, G[0, j - 1], H) && G[0, j] == GapState(true, {H})
    {
      assert Entry(M[0, j - 1], G[0, j - 1]) == Cell(p, a, b, 0, j - 1);
      assert Entry(M[0, j], G[0, j]) == Cell(p, a, b, 0, j);
    }
  }

  /**
   * The backtrack's tests at interior cell (i, j) of the matrices: the diagonal, the
   * vertical or the horizontal neighbour's score is the cell's minus that move's cost.
   */
  ghost predicate MoveFound(p: Params, a: seq<char>, b: seq<char>, M: array2<int>, G: array2<GapState>, i: nat, j: nat)
    reads M, G
    requires M.Length0 == G.Length0 == |b| + 1 && M.Length1 == G.Length1 == |a| + 1
    requires 1 <= i <= |b| && 1 <= j <= |a|
  {
    M[i - 1, j - 1] == M[i, j] - IsMatch(p, a[j - 1], b[i - 1]) ||
    M[i - 1, j] == M[i, j] - GapCost(p, G[i - 1, j], V) ||
    M[i, j - 1] == M[i, j] - GapCost(p, G[i, j - 1], H)
  }

  /** The step from (i - 1, 0) down column 0 into (i, 0) adds exactly one vertical gap cost. */
  ghost predicate ColumnStep(p: Params, M: array2<int>, G: array2<GapState>, i: nat)
    reads M, G
    requires M.Length0 == G.Length0 && M.Length1 == G.Length1 >= 1
    requires 1 <= i < M.Length0
  {
    M[i, 0] == M[i - 1, 0] + GapCost(p, G[i - 1, 0], V)
  }

  /** The step from (0, j - 1) along row 0 into (0, j) adds exactly one horizontal gap cost. */
  ghost predicate RowStep(p: Params, M: array2<int>, G: array2<GapState>, j: nat)
    reads M, G
    requires M.Length0 == G.Length0 >= 1 && M.Length1 == G.Length1
    requires 1 <= j < M.Length1
  {
    M[0, j] == M[0, j - 1] + GapCost(p, G[0, j - 1], H)
  }

  /**
   * What the backtrack relies on, read off the matrices alone: at every interior
   * cell one of its three tests succeeds, and every step down column 0 or along
   * row 0 adds exactly one gap cost.
   */
  ghost predicate Traceable(p: Params, a: seq<char>, b: seq<char>, M: array2<int>, G: array2<GapState>)
    reads M, G
  {
    M.Length0 == G.Length0 == |b| + 1 && M.Length1 == G.Length1 == |a| + 1 &&
    (forall i, j :: 1 <= i <= |b| && 1 <= j <= |a| ==> MoveFound(p, a, b, M, G, i, j)) &&
    (forall i :: 1 <= i <= |b| ==> ColumnStep(p, M, G, i)) &&
    (forall j :: 1 <= j <= |a| ==> RowStep(p, M, G, j))
  }

  /**
   * The move the backtrack takes back out of cell (i, j), read off the matrices: at
   * an interior cell diagonal when the diagonal test succeeds, else vertical when
   * the vertical test does, else horizontal (whose test then succeeds on traceable
   * matrices, by `MoveFound`); on row 0 horizontal and on column 0 vertical.
   */
  ghost function Choice(p: Params, a: seq<char>, b: seq<char>, M: array2<int>, G: array2<GapState>, i: nat, j: nat): Move
    reads M, G
    requires M.Length0 == G.Length0 == |b| + 1 && M.Length1 == G.Length1 == |a| + 1
    requires i <= |b| && j <= |a|
  {
    if i > 0 && j > 0 then
      if M[i - 1, j - 1] == M[i, j] - IsMatch(p, a[j - 1], b[i - 1]) then Diagonal
      else if M[i - 1, j] == M[i, j] - GapCost(p, G[i - 1, j], V) then Vertical
      else Horizontal
    else if i == 0 then Horizontal
    else Vertical
  }

  /**
   * `path`, leading from (i, j) to the final cell, is the way the backtrack came:
   * each of its moves is the backtrack's choice at the cell the move enters.
   */
  ghost predicate Follows(p: Params, a: seq<char>, b: seq<char>, M: array2<int>, G: array2<GapState>,
                          path: seq<Move>, i: nat, j: nat)
    reads M, G
    requires M.Length0 == G.Length0 == |b| + 1 && M.Length1 == G.Length1 == |a| + 1
    requires i + CountB(path) == |b| && j + CountA(path) == |a|
    decreases |path|
  {
    path == [] ||
    (Choice(p, a, b, M, G, RowAfter(path[0], i), ColumnAfter(path[0], j)) == path[0] &&
     Follows(p, a, b, M, G, path[1..], RowAfter(path[0], i), ColumnAfter(path[0], j)))
  }

  /** A move m from (i2, j2) into (i, j) that the backtrack chooses at (i, j) extends the way it came. */
  lemma FollowBack(p: Params, a: seq<char>, b: seq<char>, M: array2<int>, G: array2<GapState>,
                   m: Move, path: seq<Move>, i2: nat, j2: nat, i: nat, j: nat)
    requires i == RowAfter(m, i2) && j == ColumnAfter(m, j2)
    requires M.Length0 == G.Length0 == |b| + 1 && M.Length1 == G.Length1 == |a| + 1
    requires i + CountB(path) == |b| && j + CountA(path) == |a|
    requires Follows(p, a, b, M, G, path, i, j) && Choice(p, a, b, M, G, i, j) == m
    ensures i2 + CountB([m] + path) == |b| && j2 + CountA([m] + path) == |a|
    ensures Follows(p, a, b, M, G, [m] + path, i2, j2)
  {
    assert ([m] + path)[0] == m && ([m] + path)[1..] == path;
  }

  /** On matrices that hold the reference recurrence, the backtrack's choice at an interior cell is the reference backtrack's. */
  lemma ChoiceIsGreedy(p: Params, a: seq<char>, b: seq<char>, M: array2<int>, G: array2<GapState>, i: nat, j: nat)
    requires Tabulates(p, a, b, M, G)
    requires 1 <= i <= |b| && 1 <= j <= |a|
    ensures Choice(p, a, b, M, G, i, j) == GreedyMove(p, a, b, i, j)
  {
    assert Entry(M[i - 1, j - 1], G[i - 1, j - 1]) == Cell(p, a, b, i - 1, j - 1);
    assert Entry(M[i - 1, j], G[i - 1, j]) == Cell(p, a, b, i - 1, j);
    assert Entry(M[i, j], G[i, j]) == Cell(p, a, b, i, j);
  }

  /**
   * The path the backtrack takes from the origin to cell (i, j), read off the
   * matrices: its last move is the backtrack's choice at (i, j).
   */
  ghost function Route(p: Params, a: seq<char>, b: seq<char>, M: array2<int>, G: array2<GapState>, i: nat, j: nat): (path: seq<Move>)
    reads M, G
    requires M.Length0 == G.Length0 == |b| + 1 && M.Length1 == G.Length1 == |a| + 1
    requires i <= |b| && j <= |a|
    ensures CountB(path) == i && CountA(path) == j
    decreases i + j
  {
    if i == 0 && j == 0 then []
    else
      var m := Choice(p, a, b, M, G, i, j);
      Extend(Route(p, a, b, M, G, if m == Horizontal then i else i - 1, if m == Vertical then j else j - 1), m)
  }

  /** A move m from (i, j) into (i2, j2) that the backtrack chooses at (i2, j2) ends its path to (i2, j2). */
  lemma RouteEnds(p: Params, a: seq<char>, b: seq<char>, M: array2<int>, G: array2<GapState>,
                  m: Move, i: nat, j: nat, i2: nat, j2: nat)
    requires M.Length0 == G.Length0 == |b| + 1 && M.Length1 == G.Length1 == |a| + 1
    requires i2 == RowAfter(m, i) <= |b| && j2 == ColumnAfter(m, j) <= |a|
    requires Choice(p, a, b, M, G, i2, j2) == m
    ensures Route(p, a, b, M, G, i2, j2) == Route(p, a, b, M, G, i, j) + [m]
  {
    assert (if m == Horizontal then i2 else i2 - 1) == i && (if m == Vertical then j2 else j2 - 1) == j;
  }

  /**
   * A way the backtrack came from (i, j) to the final cell is what its path to
   * (i, j) is followed by; from the origin it is the backtrack's whole path.
   */
  lemma {:induction false} FollowsRoute(p: Params, a: seq<char>, b: seq<char>, M: array2<int>, G: array2<GapState>,
                                        path: seq<Move>, i: nat, j: nat)
    requires M.Length0 == G.Length0 == |b| + 1 && M.Length1 == G.Length1 == |a| + 1
    requires i + CountB(path) == |b| && j + CountA(path) == |a|
    requires Follows(p, a, b, M, G, path, i, j)
    ensures Route(p, a, b, M, G, i, j) + path == Route(p, a, b, M, G, |b|, |a|)
    decreases |path|
  {
    if path != [] {
      FollowsRoute(p, a, b, M, G, path[1..], RowAfter(path[0], i), ColumnAfter(path[0], j));
      RouteEnds(p, a, b, M, G, path[0], i, j, RowAfter(path[0], i), ColumnAfter(path[0], j));
      Rejoin(Route(p, a, b, M, G, i, j), path);
    }
  }

  /** A path put after r is its first move put after r and then the rest. */
  lemma Rejoin(r: seq<Move>, path: seq<Move>)
    requires path != []
    ensures r + path == (r + [path[0]]) + path[1..]
  {
    assert path == [path[0]] + path[1..];
    Reassociate(r, path[0], path[1..]);
  }

  /** On matrices that hold the reference recurrence, the backtrack's path is the reference backtrack's. */
  lemma {:induction false} RouteIsGreedy(p: Params, a: seq<char>, b: seq<char>, M: array2<int>, G: array2<GapState>, i: nat, j: nat)
    requires Tabulates(p, a, b, M, G)
    requires i <= |b| && j <= |a|
    ensures Route(p, a, b, M, G, i, j) == Greedy(p, a, b, i, j)
    decreases i + j
  {
    if i > 0 && j > 0 {
      ChoiceIsGreedy(p, a, b, M, G, i, j);
      var m := GreedyMove(p, a, b, i, j);
      RouteIsGreedy(p, a, b, M, G, if m == Horizontal then i else i - 1, if m == Vertical then j else j - 1);
    } else if i > 0 {
      RouteIsGreedy(p, a, b, M, G, i - 1, 0);
    } else if j > 0 {
      RouteIsGreedy(p, a, b, M, G, 0, j - 1);
    }
  }

  /** Matrices that hold the reference recurrence can always be backtracked. */
  lemma TabulatedIsTraceable(p: Params, a: seq<char>, b: seq<char>, M: array2<int>, G: array2<GapState>)
    requires Tabulates(p, a, b, M, G)
    ensures Traceable(p, a, b, M, G)
  {
    forall i, j | 1 <= i <= |b| && 1 <= j <= |a|
      ensures MoveFound(p, a, b, M, G, i, j)
    {
      SomeMoveFits(p, a, b, M, G, i, j);
    }
    TabulatedRecurrence(p, a, b, M, G);
    forall i | 1 <= i <= |b|
      ensures ColumnStep(p, M, G, i)
    {
    }
    forall j | 1 <= j <= |a|
      ensures RowStep(p, M, G, j)
    {
    }
  }

  /**
   * In tabulated matrices, one of the three tests of the backtrack succeeds at every
   * interior cell: the final score minus the pair score is the diagonal neighbour's,
   * or minus its vertical gap cost the upper one's, or minus its horizontal gap cost
   * the left one's.
   */
  lemma SomeMoveFits(p: Params, a: seq<char>, b: seq<char>, M: array2<int>, G: array2<GapState>, i: nat, j: nat)
    requires Tabulates(p, a, b, M, G)
    requires 1 <= i <= |b| && 1 <= j <= |a|
    ensures MoveFound(p, a, b, M, G, i, j)
  {
    CellIsBest(p, a, b, i, j);
    assert Entry(M[i - 1, j - 1], G[i - 1, j - 1]) == Cell(p, a, b, i - 1, j - 1);
    assert Entry(M[i - 1, j], G[i - 1, j]) == Cell(p, a, b, i - 1, j);
    assert Entry(M[i, j - 1], G[i, j - 1]) == Cell(p, a, b, i, j - 1);
    assert Entry(M[i, j], G[i, j]) == Cell(p, a, b, i, j);
  }

  /** Cost of following `path` forward from cell (i, j) to the final cell, under G's gap states. */
  ghost function WalkCost(p: Params, a: seq<char>, b: seq<char>, G: array2<GapState>, path: seq<Move>, i: nat, j: nat): int
    reads G
    requires G.Length0 == |b| + 1 && G.Length1 == |a| + 1
    requires i + CountB(path) == |b| && j + CountA(path) == |a|
    decreases |path|
  {
    if path == [] then 0
    else
      StepCost(p, a, b, path[0], i, j, G[i, j])
      + WalkCost(p, a, b, G, path[1..], RowAfter(path[0], i), ColumnAfter(path[0], j))
  }

  /** Under matrices that hold the reference recurrence, the backtrack's reading of a path's cost is the reference cost. */
  lemma {:induction false} WalkCostIsSegCost(p: Params, a: seq<char>, b: seq<char>, M: array2<int>, G: array2<GapState>,
                                             path: seq<Move>, i: nat, j: nat)
    requires Tabulates(p, a, b, M, G)
    requires i + CountB(path) == |b| && j + CountA(path) == |a|
    ensures WalkCost(p, a, b, G, path, i, j) == SegCost(p, a, b, path, i, j)
    decreases |path|
  {
    if path != [] {
      assert Entry(M[i, j], G[i, j]) == Cell(p, a, b, i, j);
      WalkCostIsSegCost(p, a, b, M, G, path[1..], RowAfter(path[0], i), ColumnAfter(path[0], j));
    }
  }

  /**
   * The backtrack has reached cell (i, j) along `path`, which leads from (i, j) to
   * the final cell: the accumulators hold one space and then the columns of `path`
   * read backwards.
   */
  ghost predicate Walked(p: Params, a: seq<char>, b: seq<char>, path: seq<Move>, i: nat, j: nat,
                         top: string, marker: string, bottom: string)
  {
    i <= |b| && j <= |a| && i + CountB(path) == |b| && j + CountA(path) == |a| &&
    top == [' '] + Reverse(TopRow(path, a[j..])) &&
    marker == [' '] + Reverse(MarkerRow(p, path, a[j..], b[i..])) &&
    bottom == [' '] + Reverse(BottomRow(path, b[i..]))
  }

  /** `path`, leading from cell (i, j) to the final cell, costs exactly what M's final cell exceeds M's (i, j) by. */
  ghost predicate Accounted(p: Params, a: seq<char>, b: seq<char>, M: array2<int>, G: array2<GapState>,
                            path: seq<Move>, i: nat, j: nat)
    reads M, G
  {
    M.Length0 == G.Length0 == |b| + 1 && M.Length1 == G.Length1 == |a| + 1 &&
    i + CountB(path) == |b| && j + CountA(path) == |a| &&
    M[|b|, |a|] == M[i, j] + WalkCost(p, a, b, G, path, i, j)
  }

  /**
   * The backtrack stands at cell (i, j) having come along `path`: the accumulators
   * render `path`, `path` costs what the final cell exceeds (i, j) by, and every
   * move of `path` is the backtrack's own choice.
   */
  ghost predicate Reached(p: Params, a: seq<char>, b: seq<char>, M: array2<int>, G: array2<GapState>,
                          path: seq<Move>, i: nat, j: nat, top: string, marker: string, bottom: string)
    reads M, G
  {
    Walked(p, a, b, path, i, j, top, marker, bottom) &&
    Accounted(p, a, b, M, G, path, i, j) &&
    Follows(p, a, b, M, G, path, i, j)
  }

  /**
   * Walks from the final cell back to the origin, diagonal first, then vertical, then
   * horizontal, and flushes the rest of row 0 and column 0; the three accumulators
   * start as one space and are read backwards at the end. Reads the matrices only.
   */
  method Backtrack(p: Params, M: array2<int>, G: array2<GapState>, a: seq<char>, b: seq<char>)
    returns (al: Trace, ghost path: seq<Move>)
    requires Tabulates(p, a, b, M, G)
    ensures al.score == Cell(p, a, b, |b|, |a|).score
    ensures CountA(path) == |a| && CountB(path) == |b|
    ensures al.top == TopRow(path, a) + [' ']
    ensures al.marker == MarkerRow(p, path, a, b) + [' ']
    ensures al.bottom == BottomRow(path, b) + [' ']
    ensures SegCost(p, a, b, path, 0, 0) == al.score
    ensures path == Greedy(p, a, b, |b|, |a|)
  {
    TabulatedIsTraceable(p, a, b, M, G);

    var i, j, alignedA, mid, alignedB;
    i, j, alignedA, mid, alignedB, path := WalkInterior(p, M, G, a, b);
    alignedA, mid, alignedB, path := FlushRow(p, M, G, a, b, i, j, alignedA, mid, alignedB, path);
    alignedA, mid, alignedB, path := FlushColumn(p, M, G, a, b, i, alignedA, mid, alignedB, path);
    ReachedOrigin(p, a, b, M, G, path, alignedA, mid, alignedB);
    al := Trace(M[M.Length0 - 1, M.Length1 - 1], Reverse(alignedA), Reverse(mid), Reverse(alignedB));
  }

  /**
   * Once the backtrack stands at the origin, the accumulators read backwards are the
   * rows of `path` with the trailing space, `path` scores what the final cell holds,
   * and `path` is the greedy path.
   */
  lemma ReachedOrigin(p: Params, a: seq<char>, b: seq<char>, M: array2<int>, G: array2<GapState>,
                      path: seq<Move>, top: string, marker: string, bottom: string)
    requires Tabulates(p, a, b, M, G)
    requires Reached(p, a, b, M, G, path, 0, 0, top, marker, bottom)
    ensures CountA(path) == |a| && CountB(path) == |b|
    ensures Reverse(top) == TopRow(path, a) + [' ']
    ensures Reverse(marker) == MarkerRow(p, path, a, b) + [' ']
    ensures Reverse(bottom) == BottomRow(path, b) + [' ']
    ensures M[|b|, |a|] == Cell(p, a, b, |b|, |a|).score == SegCost(p, a, b, path, 0, 0)
    ensures path == Greedy(p, a, b, |b|, |a|)
  {
    assert a[0..] == a && b[0..] == b;
    Unreverse(TopRow(path, a));
    Unreverse(MarkerRow(p, path, a, b));
    Unreverse(BottomRow(path, b));
    assert Entry(M[0, 0], G[0, 0]) == Cell(p, a, b, 0, 0);
    assert Entry(M[|b|, |a|], G[|b|, |a|]) == Cell(p, a, b, |b|, |a|);
    WalkCostIsSegCost(p, a, b, M, G, path, 0, 0);
    FollowedIsGreedy(p, a, b, M, G, path);
  }

  /** A path from the origin made of the backtrack's choices only is the greedy path. */
  lemma FollowedIsGreedy(p: Params, a: seq<char>, b: seq<char>, M: array2<int>, G: array2<GapState>, path: seq<Move>)
    requires Tabulates(p, a, b, M, G)
    requires CountB(path) == |b| && CountA(path) == |a|
    requires Follows(p, a, b, M, G, path, 0, 0)
    ensures path == Greedy(p, a, b, |b|, |a|)
  {
    FollowsRoute(p, a, b, M, G, path, 0, 0);
    RouteIsGreedy(p, a, b, M, G, |b|, |a|);
  }

  /**
   * The main backtrack loop: from the final cell, while both indices are positive,
   * takes the first of the diagonal, vertical and horizontal tests that succeeds and
   * appends that column to the accumulators.
   */
  method WalkInterior(p: Params, M: array2<int>, G: array2<GapState>, a: seq<char>, b: seq<char>)
    returns (i: nat, j: nat, alignedA: string, mid: string, alignedB: string, ghost path: seq<Move>)
    requires Traceable(p, a, b, M, G)
    ensures i == 0 || j == 0
    ensures Reached(p, a, b, M, G, path, i, j, alignedA, mid, alignedB)
  {
    i, j := M.Length0 - 1, M.Length1 - 1;
    alignedA, alignedB, mid := " ", " ", " ";
    path := [];
    while i > 0 && j > 0
      invariant Reached(p, a, b, M, G, path, i, j, alignedA, mid, alignedB)
      decreases i + j
    {
      var diagonal := M[i, j] - IsMatch(p, a[j - 1], b[i - 1]);
      var vgap := M[i, j] - GapCost(p, G[i - 1, j], V);
      var hgap := M[i, j] - GapCost(p, G[i, j - 1], H);
      assert MoveFound(p, a, b, M, G, i, j);
      if M[i - 1, j - 1] == diagonal {
        BackStep(p, a, b, M, G, Diagonal, path, i - 1, j - 1, i, j, alignedA, mid, alignedB,
                 a[j - 1], if IsMatch(p, a[j - 1], b[i - 1]) == p.matchScore then '|' else ' ', b[i - 1]);
        alignedA := alignedA + [a[j - 1]];
        alignedB := alignedB + [b[i - 1]];
        if IsMatch(p, a[j - 1], b[i - 1]) == p.matchScore {
          mid := mid + ['|'];
        } else {
          mid := mid + [' '];
        }
        path := [Diagonal] + path;
        i, j := i - 1, j - 1;
      } else if M[i - 1, j] == vgap {
        BackStep(p, a, b, M, G, Vertical, path, i - 1, j, i, j, alignedA, mid, alignedB, '-', ' ', b[i - 1]);
        alignedA := alignedA + ['-'];
        alignedB := alignedB + [b[i - 1]];
        mid := mid + [' '];
        path := [Vertical] + path;
        i := i - 1;
      } else if M[i, j - 1] == hgap {
        BackStep(p, a, b, M, G, Horizontal, path, i, j - 1, i, j, alignedA, mid, alignedB, a[j - 1], ' ', '-');
        alignedA := alignedA + [a[j - 1]];
        alignedB := alignedB + ['-'];
        mid := mid + [' '];
        path := [Horizontal] + path;
        j := j - 1;
      } else {
        assert false;
      }
    }
  }

  /** Flushes row i (0 when the main loop stopped on row 0) leftwards to column 0 with horizontal moves. */
  method FlushRow(p: Params, M: array2<int>, G: array2<GapState>, a: seq<char>, b: seq<char>,
                  i: nat, j0: nat, alignedA0: string, mid0: string, alignedB0: string, ghost path0: seq<Move>)
    returns (alignedA: string, mid: string, alignedB: string, ghost path: seq<Move>)
    requires Traceable(p, a, b, M, G)
    requires i == 0 || j0 == 0
    requires Reached(p, a, b, M, G, path0, i, j0, alignedA0, mid0, alignedB0)
    ensures Reached(p, a, b, M, G, path, i, 0, alignedA, mid, alignedB)
    ensures path == Run(Horizontal, j0) + path0
  {
    var j: nat := j0;
    alignedA, mid, alignedB, path := alignedA0, mid0, alignedB0, path0;
    while j > 0
      invariant i == 0 || j == 0
      invariant j <= j0
      invariant Reached(p, a, b, M, G, path, i, j, alignedA, mid, alignedB)
      invariant path == Run(Horizontal, j0 - j) + path0
    {
      FlushRowStep(p, a, b, M, G, path, path0, i, j, j0, alignedA, mid, alignedB);
      alignedA := alignedA + [a[j - 1]];
      alignedB := alignedB + ['-'];
      mid := mid + [' '];
      path := [Horizontal] + path;
      j := j - 1;
    }
  }

  /** Flushes column 0 upwards to the origin with vertical moves. */
  method FlushColumn(p: Params, M: array2<int>, G: array2<GapState>, a: seq<char>, b: seq<char>,
                     i0: nat, alignedA0: string, mid0: string, alignedB0: string, ghost path0: seq<Move>)
    returns (alignedA: string, mid: string, alignedB: string, ghost path: seq<Move>)
    requires Traceable(p, a, b, M, G)
    requires Reached(p, a, b, M, G, path0, i0, 0, alignedA0, mid0, alignedB0)
    ensures Reached(p, a, b, M, G, path, 0, 0, alignedA, mid, alignedB)
    ensures path == Run(Vertical, i0) + path0
  {
    var i: nat := i0;
    alignedA, mid, alignedB, path := alignedA0, mid0, alignedB0, path0;
    while i > 0
      invariant i <= i0
      invariant Reached(p, a, b, M, G, path, i, 0, alignedA, mid, alignedB)
      invariant path == Run(Vertical, i0 - i) + path0
    {
      FlushColumnStep(p, a, b, M, G, path, path0, i, i0, alignedA, mid, alignedB);
      alignedA := alignedA + ['-'];
      alignedB := alignedB + [b[i - 1]];
      mid := mid + [' '];
      path := [Vertical] + path;
      i := i - 1;
    }
  }

  /**
   * A move from (i, j) into (i2, j2) whose cost, as the backtrack reads it, is exactly
   * the difference of the two scores carries the account of the rest of the path
   * back to (i, j).
   */
  lemma PrependWalkCost(p: Params, a: seq<char>, b: seq<char>, M: array2<int>, G: array2<GapState>,
                        m: Move, path: seq<Move>, i: nat, j: nat, i2: nat, j2: nat)
    requires i2 == RowAfter(m, i) && j2 == ColumnAfter(m, j)
    requires Accounted(p, a, b, M, G, path, i2, j2)
    requires M[i2, j2] == M[i, j] + StepCost(p, a, b, m, i, j, G[i, j])
    ensures Accounted(p, a, b, M, G, [m] + path, i, j)
  {
    assert ([m] + path)[0] == m && ([m] + path)[1..] == path;
  }

  /**
   * One step of the backtrack, back from (i, j) into (i2, j2) with move m, when the
   * move's cost is the difference of the two scores and m is the backtrack's choice
   * at (i, j): the accumulators grow by the move's column (x above, marker z, y
   * below), and the walk, its account and the way it came all extend by m.
   */
  lemma BackStep(p: Params, a: seq<char>, b: seq<char>, M: array2<int>, G: array2<GapState>,
                 m: Move, path: seq<Move>, i2: nat, j2: nat, i: nat, j: nat,
                 top: string, marker: string, bottom: string, x: char, z: char, y: char)
    requires i == RowAfter(m, i2) && j == ColumnAfter(m, j2)
    requires Reached(p, a, b, M, G, path, i, j, top, marker, bottom)
    requires M[i, j] == M[i2, j2] + StepCost(p, a, b, m, i2, j2, G[i2, j2])
    requires Choice(p, a, b, M, G, i, j) == m
    requires x == if m == Vertical then '-' else a[j2]
    requires y == if m == Horizontal then '-' else b[i2]
    requires z == if m == Diagonal && IsMatch(p, a[j2], b[i2]) == p.matchScore then '|' else ' '
    ensures Reached(p, a, b, M, G, [m] + path, i2, j2, top + [x], marker + [z], bottom + [y])
  {
    PrependTop(m, path, a, j2, j, top, x);
    PrependBottom(m, path, b, i2, i, bottom, y);
    PrependMarker(p, m, path, a, b, i2, j2, i, j, marker, z);
    PrependWalkCost(p, a, b, M, G, m, path, i2, j2, i, j);
    FollowBack(p, a, b, M, G, m, path, i2, j2, i, j);
  }

  /** One horizontal step of the row flush, from (0, j) back to (0, j - 1), keeps the loop's invariants. */
  lemma FlushRowStep(p: Params, a: seq<char>, b: seq<char>, M: array2<int>, G: array2<GapState>,
                     path: seq<Move>, path0: seq<Move>, i: nat, j: nat, j0: nat, top: string, marker: string, bottom: string)
    requires Traceable(p, a, b, M, G)
    requires i == 0 && 1 <= j <= j0
    requires Reached(p, a, b, M, G, path, i, j, top, marker, bottom)
    requires path == Run(Horizontal, j0 - j) + path0
    ensures Reached(p, a, b, M, G, [Horizontal] + path, i, j - 1, top + [a[j - 1]], marker + [' '], bottom + ['-'])
    ensures [Horizontal] + path == Run(Horizontal, j0 - (j - 1)) + path0
  {
    assert RowStep(p, M, G, j);
    BackStep(p, a, b, M, G, Horizontal, path, i, j - 1, 0, j, top, marker, bottom, a[j - 1], ' ', '-');
    RunBack(Horizontal, j0 - j, path, path0);
  }

  /** One vertical step of the column flush, from (i, 0) back to (i - 1, 0), keeps the loop's invariants. */
  lemma FlushColumnStep(p: Params, a: seq<char>, b: seq<char>, M: array2<int>, G: array2<GapState>,
                        path: seq<Move>, path0: seq<Move>, i: nat, i0: nat, top: string, marker: string, bottom: string)
    requires Traceable(p, a, b, M, G)
    requires 1 <= i <= i0
    requires Reached(p, a, b, M, G, path, i, 0, top, marker, bottom)
    requires path == Run(Vertical, i0 - i) + path0
    ensures Reached(p, a, b, M, G, [Vertical] + path, i - 1, 0, top + ['-'], marker + [' '], bottom + [b[i - 1]])
    ensures [Vertical] + path == Run(Vertical, i0 - (i - 1)) + path0
  {
    assert ColumnStep(p, M, G, i);
    BackStep(p, a, b, M, G, Vertical, path, i - 1, 0, i, 0, top, marker, bottom, '-', ' ', b[i - 1]);
    RunBack(Vertical, i0 - i, path, path0);
  }

  /** One more move in front of a run of n moves `m` makes a run of n + 1. */
  lemma RunBack(m: Move, n: nat, path: seq<Move>, path0: seq<Move>)
    requires path == Run(m, n) + path0
    ensures [m] + path == Run(m, n + 1) + path0
  {
    assert Run(m, n + 1) == [m] + Run(m, n);
  }

  /**
   * Backtracking one more move, from column j2 back to column j, puts one more column
   * at the end of the accumulated (reversed) row of a.
   */
  lemma PrependTop(m: Move, path: seq<Move>, a: seq<char>, j: nat, j2: nat, top: string, x: char)
    requires j2 == ColumnAfter(m, j) && j2 + CountA(path) == |a|
    requires x == if m == Vertical then '-' else a[j]
    requires top == [' '] + Reverse(TopRow(path, a[j2..]))
    ensures j + CountA([m] + path) == |a|
    ensures top + [x] == [' '] + Reverse(TopRow([m] + path, a[j..]))
  {
    assert ([m] + path)[0] == m && ([m] + path)[1..] == path;
    if m != Vertical {
      assert a[j..][0] == a[j] && a[j..][1..] == a[j2..];
    }
    ReverseCons(x, TopRow(path, a[j2..]));
  }

  /**
   * Backtracking one more move, from row i2 back to row i, puts one more column at
   * the end of the accumulated (reversed) row of b.
   */
  lemma PrependBottom(m: Move, path: seq<Move>, b: seq<char>, i: nat, i2: nat, bottom: string, y: char)
    requires i2 == RowAfter(m, i) && i2 + CountB(path) == |b|
    requires y == if m == Horizontal then '-' else b[i]
    requires bottom == [' '] + Reverse(BottomRow(path, b[i2..]))
    ensures i + CountB([m] + path) == |b|
    ensures bottom + [y] == [' '] + Reverse(BottomRow([m] + path, b[i..]))
  {
    assert ([m] + path)[0] == m && ([m] + path)[1..] == path;
    if m != Horizontal {
      assert b[i..][0] == b[i] && b[i..][1..] == b[i2..];
    }
    ReverseCons(y, BottomRow(path, b[i2..]));
  }

  /**
   * Backtracking one more move, from (i2, j2) back to (i, j), puts one more column at
   * the end of the accumulated (reversed) marker line.
   */
  lemma PrependMarker(p: Params, m: Move, path: seq<Move>, a: seq<char>, b: seq<char>, i: nat, j: nat,
                      i2: nat, j2: nat, marker: string, z: char)
    requires i2 == RowAfter(m, i) && j2 == ColumnAfter(m, j)
    requires i2 + CountB(path) == |b| && j2 + CountA(path) == |a|
    requires z == if m == Diagonal && IsMatch(p, a[j], b[i]) == p.matchScore then '|' else ' '
    requires marker == [' '] + Reverse(MarkerRow(p, path, a[j2..], b[i2..]))
    ensures marker + [z] == [' '] + Reverse(MarkerRow(p, [m] + path, a[j..], b[i..]))
  {
    assert ([m] + path)[0] == m && ([m] + path)[1..] == path;
    if m != Vertical {
      assert a[j..][0] == a[j] && a[j..][1..] == a[j2..];
    }
    if m != Horizontal {
      assert b[i..][0] == b[i] && b[i..][1..] == b[i2..];
    }
    ReverseCons(z, MarkerRow(p, path, a[j2..], b[i2..]));
  }

  /** An accumulator that started as one space and grew at its end reads, backwards, as its columns and one trailing space. */
  lemma Unreverse(row: seq<char>)
    ensures Reverse([' '] + Reverse(row)) == row + [' ']
  {
    ReverseCons(' ', Reverse(row));
    ReverseReverse(row);
  }

  /**
   * Fills initialised matrices for a (the columns) and b (the rows) in place and
   * backtracks over them. Returns the final cell's score and the three rows; the
   * matrices are left filled.
   */
  method GlobalAlignment(p: Params, M: array2<int>, G: array2<GapState>, a: seq<char>, b: seq<char>)
    returns (al: Trace, ghost path: seq<Move>)
    requires Initial(p, M, G) && M.Length0 == |b| + 1 && M.Length1 == |a| + 1
    modifies M, G
    ensures Tabulates(p, a, b, M, G)
    ensures al.score == M[|b|, |a|] == Cell(p, a, b, |b|, |a|).score
    ensures CountA(path) == |a| && CountB(path) == |b|
    ensures al.top == TopRow(path, a) + [' ']
    ensures al.marker == MarkerRow(p, path, a, b) + [' ']
    ensures al.bottom == BottomRow(path, b) + [' ']
    ensures SegCost(p, a, b, path, 0, 0) == al.score
    ensures path == Greedy(p, a, b, |b|, |a|)
  {
    forall i, j | 0 <= i <= |b| && 0 <= j <= |a| && (i == 0 || j == 0)
      ensures Entry(M[i, j], G[i, j]) == Cell(p, a, b, i, j)
    {
      InitialBorder(p, a, b, M, G, i, j);
    }
    Fill(p, M, G, a, b);
    al, path := Backtrack(p, M, G, a, b);
  }

  /** The rows and score of `al` are a rendering of `path`, and `path` costs exactly the final cell's score. */
  ghost predicate Explains(p: Params, a: seq<char>, b: seq<char>, path: seq<Move>, al: Trace)
  {
    CountA(path) == |a| && CountB(path) == |b| &&
    al.top == TopRow(path, a) + [' '] &&
    al.marker == MarkerRow(p, path, a, b) + [' '] &&
    al.bottom == BottomRow(path, b) + [' '] &&
    al.score == Cell(p, a, b, |b|, |a|).score &&
    SegCost(p, a, b, path, 0, 0) == al.score
  }

  /**
   * The three rows of an explained alignment have one column per move plus the
   * trailing space; deleting the gap columns of the top row gives back a and of the
   * bottom row gives back b, and when a and b hold no '-' deleting every '-' does.
   */
  lemma ExplainedRows(p: Params, a: seq<char>, b: seq<char>, path: seq<Move>, al: Trace)
    requires Explains(p, a, b, path, al)
    ensures |al.top| == |al.marker| == |al.bottom| == |path| + 1
    ensures al.top[|path|] == al.marker[|path|] == al.bottom[|path|] == ' '
    ensures Keep(path, al.top[..|path|], Vertical) == a
    ensures Keep(path, al.bottom[..|path|], Horizontal) == b
    ensures '-' !in a ==> Ungap(al.top[..|path|]) == a
    ensures '-' !in b ==> Ungap(al.bottom[..|path|]) == b
  {
    assert al.top[..|path|] == TopRow(path, a);
    assert al.bottom[..|path|] == BottomRow(path, b);
    TopRowKeepsA(path, a);
    BottomRowKeepsB(path, b);
    if '-' !in a {
      UngapTopRow(path, a);
    }
    if '-' !in b {
      UngapBottomRow(path, b);
    }
  }

  /**
   * Column k of an explained alignment's marker row is '|' exactly when the column
   * is a diagonal move whose two symbols score the match score, and ' ' otherwise.
   */
  lemma ExplainedMarker(p: Params, a: seq<char>, b: seq<char>, path: seq<Move>, al: Trace, k: nat)
    requires Explains(p, a, b, path, al) && k < |path|
    ensures al.marker[k] == '|' <==> path[k] == Diagonal && IsMatch(p, al.top[k], al.bottom[k]) == p.matchScore
    ensures al.marker[k] != '|' ==> al.marker[k] == ' '
  {
    MarkerRowAt(p, path, a, b, k);
  }

  /**
   * A whole run on sequences a and b: a matrix of |b| + 1 rows and |a| + 1 columns,
   * initialised, filled and backtracked. The original fails with an index error when
   * either sequence is empty; here that is the `EmptySequence` error.
   */
  method Align(p: Params, a: seq<char>, b: seq<char>) returns (r: Result<Trace>)
    ensures r.Err? <==> |a| == 0 || |b| == 0
    ensures r.Ok? ==> Explains(p, a, b, Greedy(p, a, b, |b|, |a|), r.value)
    ensures r.Ok? ==> forall path :: CountA(path) == |a| && CountB(path) == |b| ==>
              SegCost(p, a, b, path, 0, 0) <= r.value.score
  {
    if |a| == 0 || |b| == 0 {
      return Err(EmptySequence);
    }
    var rows, columns := |b| + 1, |a| + 1;
    var M, G := InitMatrix(p, rows, columns);
    var al;
    ghost var path;
    al, path := GlobalAlignment(p, M, G, a, b);
    assert Explains(p, a, b, path, al);
    forall other | CountA(other) == |a| && CountB(other) == |b|
      ensures SegCost(p, a, b, other, 0, 0) <= al.score
    {
      NoPathBeatsCell(p, a, b, other, 0, 0);
    }
    return Ok(al);
  }

  /**
   * With the original's default costs, "A" against "C" ties all three candidates of
   * the final cell at -10; the diagonal test comes first, so the only result `Align`
   * can return renders the single diagonal column.
   */
  lemma DefaultTie(al: Trace)
    requires Explains(Params(20, -10, -5, -5), "A", "C", Greedy(Params(20, -10, -5, -5), "A", "C", 1, 1), al)
    ensures al == Trace(-10, "A ", "  ", "C ")
  {
    assert Greedy(Params(20, -10, -5, -5), "A", "C", 1, 1) == [Diagonal];
  }
}
