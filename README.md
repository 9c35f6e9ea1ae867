# Needleman-Wunsch global aligner, modelled in Dafny

This project models the global-alignment engine of `Hw3.py`. The engine aligns
sequence `a` (the columns of the matrices) against sequence `b` (the rows).

The engine has four working parts. The model keeps each part in the form the
source gives it:

- **Scoring.** `is_match` scores a pair of symbols. `gap_penalty` charges the
  gap-extension cost when the neighbour cell's recorded gap state is flagged in
  the move's direction, and the gap-opening cost otherwise. Both are pure
  functions in `scoring.dfy`. The four scoring constants, which the source keeps
  as module globals, are a `Params` record passed into every operation.
- **Initialisation.** `init_matrix` builds a score matrix and a parallel
  gap-state matrix. It fills column 0 and row 0 with accumulated gap costs. In
  the model this is `Alignment.InitMatrix` over two `array2`s, with one method
  per border loop.
- **Fill.** The fill writes every interior cell in place, row by row, with the
  best of three candidates: diagonal, vertical gap and horizontal gap. It then
  records the gap state of the winner. The model is three methods: `Fill` (the
  outer loop), `FillRow` (the inner loop) and `FillCell` (one cell, with the
  source's two gap-state tests and their overriding order).
- **Backtrack.** The backtrack walks from the final cell to the origin. It tries
  the diagonal test first, then the vertical, then the horizontal, and grows
  three string accumulators that start as one space each. It then flushes row 0
  and column 0, and the caller reads the accumulators backwards. The model is
  the methods `WalkInterior`, `FlushRow` and `FlushColumn`, joined by
  `Backtrack`.

The matrices' meaning is stated by a pure reference definition,
`Recurrence.Cell`. It is the recurrence the fill computes, written as a
recursive function of `(i, j)`.

The fill is proved to leave the matrices equal to `Cell` everywhere
(`Alignment.Tabulates`). The backtrack is proved to return three rows that
render one path through the matrices, and that path explains the final score
exactly. It is also proved to be the very path the source's backtrack takes:
`Recurrence.Greedy` defines that path on `Cell` alone, taking out of each
interior cell the first of the diagonal, vertical and horizontal tests that
succeeds, and moving left along row 0 and up column 0.
`Recurrence.NoPathBeatsCell` proves that no path costs more than the final cell.

For the whole run, `Alignment.Align` shows:

- it fails exactly when a sequence is empty;
- otherwise its result renders the path `Recurrence.Greedy` gives, and that path
  scores exactly the returned score;
- no other path scores higher.

`optimum.dfy` works out what the result is when a sequence is aligned against
itself.

A path is a sequence of moves (`Paths.Move`). Its cost, `Recurrence.SegCost`,
charges each gap move the gap cost read from the recorded gap state of the
cell it leaves, exactly as the backtrack's tests do. "Optimal" is therefore
meant under the source's own cost model. That model is not the three-matrix
affine-gap recurrence used elsewhere for this kind of alignment.

## Model

| member | source | states |
|---|---|---|
| Scoring.IsMatch | Hw3.py:49-50 | equal symbols score the match score, different symbols the mismatch penalty |
| Scoring.GapCost | Hw3.py:52-65 | the cost is the extension cost exactly when the neighbour's state is flagged and holds the move's direction, and the opening cost in every other case |
| Alignment.InitMatrix | Hw3.py:29-43 | fresh matrices of the requested size: origin 0 with no gap; (i, 0) holds open + (i - 1) * extend, flagged vertical; (0, j) likewise, flagged horizontal; every interior cell holds 0 with no gap |
| Alignment.InitColumn | Hw3.py:36-38 | column 0 below the origin holds the accumulated vertical gap costs, flagged vertical; every other cell is unchanged |
| Alignment.InitRow | Hw3.py:39-41 | row 0 right of the origin holds the accumulated horizontal gap costs, flagged horizontal; every other cell is unchanged |
| Alignment.InitialBorder | Hw3.py:29-43 | every border cell of initialised matrices already equals the reference recurrence |
| Recurrence.ColumnEdge | Hw3.py:36-38 | the reference column 0 holds one opening plus i - 1 extensions, flagged vertical |
| Recurrence.RowEdge | Hw3.py:39-41 | the reference row 0 holds one opening plus j - 1 extensions, flagged horizontal |
| Recurrence.FillStep | Hw3.py:73-86 | the new score is at least each of the diagonal, vertical and horizontal candidates and equals one of them; a score equal to the vertical candidate records a vertical gap, else one equal to the horizontal candidate a horizontal gap, else the cell keeps its prior state |
| Recurrence.Max3 | Hw3.py:77-78 | the chosen value is at least each of the three candidates and is one of them |
| Recurrence.Record | Hw3.py:80-84 | a winning vertical candidate records a vertical gap; otherwise a winning horizontal one records a horizontal gap; otherwise the prior state is kept |
| Alignment.FillCell | Hw3.py:73-86 | the cell receives the best candidate, computed from its neighbours' entries, and the winner's gap state; no other cell changes |
| Alignment.FillRow | Hw3.py:72-86 | after the inner loop, every cell of row i equals the reference recurrence; cells outside row i's interior are unchanged |
| Alignment.Fill | Hw3.py:71-86 | after the fill, every cell equals the reference recurrence, and row 0 and column 0 are unchanged |
| Alignment.FillStepIsCell | Hw3.py:73-86 | the fill's step, applied to neighbours that already hold the reference entries, yields the reference entry of the cell |
| Alignment.TabulatedRecurrence | Hw3.py:71-86 | in fully filled matrices, each interior cell is the fill's step over its neighbours' final entries, and each border cell adds one gap cost to its predecessor |
| Recurrence.CellIsBest | Hw3.py:73-86 | an interior cell scores at least each of its three candidates and equals one of them |
| Recurrence.GapRecordsWinner | Hw3.py:80-84 | the recorded gap is vertical iff the vertical candidate wins; horizontal iff the horizontal wins and the vertical does not; none iff only the diagonal wins |
| Recurrence.GapStateShape | Hw3.py:80-84 | every gap state is unflagged-empty, vertical or horizontal; border cells are flagged in their single direction |
| Recurrence.StepBound | Hw3.py:73-86 | the cell a move enters scores at least the cell it leaves plus the move's cost |
| Recurrence.GreedyMove | Hw3.py:93-115 | the move taken back out of an interior reference cell is diagonal exactly when the diagonal test succeeds, vertical exactly when that test fails and the vertical one succeeds, and horizontal only when the horizontal test succeeds |
| Recurrence.Greedy | Hw3.py:92-127 | the reference backtrack path from the origin to (i, j) consumes exactly j symbols of a and i of b |
| Recurrence.GreedyRow | Hw3.py:117-121 | on row 0 the reference backtrack path is j horizontal moves |
| Recurrence.GreedyColumn | Hw3.py:123-127 | on column 0 the reference backtrack path is i vertical moves |
| Recurrence.NoPathBeatsCell | Hw3.py:71-86 | no path from (i, j) to the final cell gains more than the final score exceeds (i, j)'s |
| Alignment.SomeMoveFits | Hw3.py:93-115 | at every interior cell of filled matrices, at least one of the diagonal, vertical and horizontal tests succeeds |
| Alignment.TabulatedIsTraceable | Hw3.py:92-127 | filled matrices satisfy every test the backtrack relies on: one interior test always succeeds, and border steps add exactly one gap cost |
| Alignment.ChoiceIsGreedy | Hw3.py:93-115 | in filled matrices, the move the backtrack's three tests pick at an interior cell is the reference `GreedyMove` |
| Alignment.FollowBack | Hw3.py:97-127 | putting the backtrack's own choice at (i, j) in front of a path of its choices gives a path of its choices from the cell the move leaves |
| Alignment.Route | Hw3.py:92-127 | the path of the backtrack's choices from the origin to (i, j), read off the matrices, consumes exactly j symbols of a and i of b |
| Alignment.RouteEnds | Hw3.py:92-127 | the route to a cell is the route to the cell the backtrack's choice there leads back to, followed by that move |
| Alignment.FollowsRoute | Hw3.py:92-127 | a path from (i, j) to the final cell made only of the backtrack's choices is the rest of the route: the route to (i, j) followed by it is the route to the final cell |
| Alignment.RouteIsGreedy | Hw3.py:92-127 | in filled matrices the route read off the matrices is the reference backtrack path |
| Alignment.FollowedIsGreedy | Hw3.py:92-127 | in filled matrices a path from the origin to the final cell made only of the backtrack's choices is the reference backtrack path |
| Alignment.WalkCostIsSegCost | Hw3.py:93-95 | the cost of a path read through the gap-state matrix equals its reference cost |
| Alignment.WalkInterior | Hw3.py:88-115 | the main loop stops on row 0 or column 0; the accumulators hold a space and the reversed rendering of the path taken; the path accounts exactly for the score drop; every move of it is the first of the diagonal, vertical and horizontal tests that succeeds at the cell it leaves |
| Alignment.FlushRow | Hw3.py:117-121 | flushing the row leaves the walk at column 0, with j0 horizontal moves put in front of the path so far, and with the same rendering, account and choice invariants |
| Alignment.FlushColumn | Hw3.py:123-127 | flushing column 0 leaves the walk at the origin, with i0 vertical moves put in front of the path so far, and with the same invariants |
| Alignment.PrependWalkCost | Hw3.py:97-115 | a successful test, whose move cost is the score drop, extends the account to the longer path |
| Alignment.BackStep | Hw3.py:97-127 | one step back along the backtrack's choice, whose cost is the score drop, appends the move's column to the accumulators and keeps the rendering, account and choice invariants |
| Alignment.FlushRowStep | Hw3.py:117-121 | one step of the row flush appends a's symbol, ' ' and '-', keeps the invariants, and lengthens the run of horizontal moves in front of the path by one |
| Alignment.FlushColumnStep | Hw3.py:123-127 | one step of the column flush appends '-', ' ' and b's symbol, keeps the invariants, and lengthens the run of vertical moves in front of the path by one |
| Alignment.PrependTop | Hw3.py:98-126 | appending one column to the reversed row of a renders the path extended by one move |
| Alignment.PrependBottom | Hw3.py:98-126 | appending one column to the reversed row of b renders the path extended by one move |
| Alignment.PrependMarker | Hw3.py:100-126 | appending one marker renders the extended path's marker line |
| Alignment.ReachedOrigin | Hw3.py:123-134 | once the walk stands at the origin of filled matrices, the accumulators read backwards are the path's rows with a trailing space, the path costs the final cell's score, and the path is the reference backtrack path |
| Alignment.Unreverse | Hw3.py:130 | reading backwards an accumulator that started as one space gives its columns plus a trailing space |
| Alignment.Backtrack | Hw3.py:88-134 | the three rows render the reference backtrack path from the origin to the final cell, each with a trailing space; that path costs exactly the final cell's score, which is returned |
| Alignment.GlobalAlignment | Hw3.py:68-134 | on initialised matrices: the fill leaves the reference recurrence, the returned score is M[rows - 1][columns - 1], and the returned rows render the reference backtrack path, which costs exactly that score |
| Alignment.Align | Hw3.py:148-160 | fails exactly when a sequence is empty; otherwise the result renders the reference backtrack path, which costs exactly the returned score, and no path costs more |
| Alignment.DefaultTie | Hw3.py:92-105 | under the default costs of Hw3.py:21-24, "A" against "C" ties all three candidates at -10, and the only result the run can return is the diagonal column: rows "A ", "  ", "C " with score -10 |
| Alignment.ExplainedRows | Hw3.py:89-130 | the three rows have equal length; deleting the gap columns gives back a and b; when a and b hold no '-', deleting every '-' does |
| Alignment.ExplainedMarker | Hw3.py:97-127 | a marker is '|' exactly on a diagonal column whose symbols score the match score, and ' ' elsewhere |
| Paths.TopRowKeepsA | Hw3.py:98-126 | deleting the vertical columns of the rendered row of a gives a |
| Paths.BottomRowKeepsB | Hw3.py:98-126 | deleting the horizontal columns of the rendered row of b gives b |
| Paths.TopRowAt | Hw3.py:106-110 | the row of a holds '-' in every vertical column, and only there when a holds no '-' |
| Paths.BottomRowAt | Hw3.py:111-121 | the row of b holds '-' in every horizontal column, and only there when b holds no '-' |
| Paths.UngapTopRow | Hw3.py:98-126 | when a holds no '-', deleting every '-' from its row gives a |
| Paths.UngapBottomRow | Hw3.py:98-126 | when b holds no '-', deleting every '-' from its row gives b |
| Paths.MarkerRowAt | Hw3.py:100-103 | marker column k is '|' iff the move is diagonal and its symbols score the match score; otherwise it is ' ' |
| Paths.MarkerMeansIdentical | Hw3.py:100-103 | when match and mismatch scores differ and the inputs hold no '-', '|' marks exactly the columns with identical non-gap symbols |
| Paths.Run | Hw3.py:117-127 | a run of n equal moves has n moves and consumes n symbols of a unless vertical and n of b unless horizontal |
| Paths.TopRow | Hw3.py:98-124 | the rendered row of a has one column per move |
| Paths.BottomRow | Hw3.py:99-125 | the rendered row of b has one column per move |
| Paths.MarkerRow | Hw3.py:100-126 | the marker line has one column per move |
| Paths.Reverse | Hw3.py:130 | reading backwards keeps the length |
| Paths.PathLength | Hw3.py:92-127 | a path has at least as many moves as either sequence has symbols, and at most their total |
| Paths.ReverseReverse | Hw3.py:130 | reading backwards twice gives the original |
| Optimum.SegCostAtMostMatches | Hw3.py:73-75 | under costs that reward nothing over a match, a path gains at most one match score per symbol of a; under strictly penalising costs, only an all-diagonal path attains that |
| Optimum.DiagonalsCost | Hw3.py:73 | the diagonal path of a sequence against itself gains one match score per symbol |
| Optimum.DiagonalsRender | Hw3.py:97-103 | the diagonal path renders a sequence above itself with '|' in every column |
| Optimum.IdenticalScore | Hw3.py:71-134 | aligning a sequence against itself scores one match score per symbol |
| Optimum.IdenticalRendering | Hw3.py:88-130 | under strictly penalising costs, aligning a sequence against itself takes no gap and marks every column '|' |

## Left out

- `parse` (Hw3.py:9-13) reads the input file. File I/O is not modelled; the two sequences are parameters. The trailing newline that `readlines()` keeps on the second line (Hw3.py:11-13) is not modelled.
- `get_args` (Hw3.py:16-27) handles the command line. The scoring constants it supplies become the `Params` argument.
- `print_matrix` (Hw3.py:45-47) and the `print` at Hw3.py:130 are console output. The three reversed strings are returned in an `Alignment.Trace` instead.
- `match_hit` (Hw3.py:132) is computed and never used.
- The `__main__` block (Hw3.py:136-161) only wires the pieces together; `Alignment.Align` takes its place.
- Kmers.py is not part of this model.
- The `algorithm` parameter of `init_matrix` and the `rows` and `columns` parameters of `global_alignment` are dropped. The model derives the dimensions from the sequences (`|b| + 1` rows, `|a| + 1` columns), as the only caller does.
- Python aliases one gap-state list across each row (Hw3.py:31). The source only ever reassigns cells, never mutates them, so the model starts every cell as its own "no gap" value. The flag `0`/`1` is a `bool`.
- Alignment.InitMatrix requires at least two rows and two columns. The source indexes cells (1, 0) and (0, 1) unconditionally and fails with an index error otherwise. In `Alignment.Align` that failure is the `EmptySequence` error.
- Alignment.Fill requires matrices whose border already holds the reference recurrence and whose interior records no gap. It does not require the interior scores to be zero. Initialisation supplies exactly this (`Alignment.InitialBorder`).
- Alignment.Fill: the claim that each interior cell is written exactly once is not stated. The contract states the final contents and that the border is unchanged.
- Alignment.WalkInterior: if none of the three tests succeeded, the source's loop would spin forever. The model proves that this cannot happen on filled matrices, so that branch is `assert false`.
- Alignment.GlobalAlignment, Alignment.Align: score sums are unbounded integers. Python integers are unbounded too, so no wrap-around is modelled.

## Behaviour of the code worth knowing

- Gap flags on ties. The gap-state writes at Hw3.py:80-84 compare values, not the index `options.index(max(options))` picks. A gap candidate that ties with the diagonal therefore still flags the cell even though the diagonal's value is the one stored, and a vertical tie overrides a horizontal one (`Recurrence.Record`).
- Marker line. The code puts '|' where `is_match` returns the match score (Hw3.py:100), not where the two symbols are identical. When the match and mismatch scores differ and neither input holds '-', the '|' columns are exactly the columns with identical symbols (`Paths.MarkerMeansIdentical`).
- Empty sequences. With an empty sequence the matrices have a single row or a single column, and the writes at Hw3.py:32-33 fail with an index error; no alignment is produced. The model reports `EmptySequence`.
- Trailing space. Each returned row carries one trailing space: the accumulators start as one space (Hw3.py:89) and are reversed at Hw3.py:130.
