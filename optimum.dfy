// What the optimum is for a sequence aligned against itself: under costs that
// never reward a gap or a mismatch over a match, the score is one match score
// per symbol, and under strictly penalising costs the alignment has no gap and a
// '|' in every column.

module Optimum {
  import opened Scoring
  import opened Paths
  import opened Recurrence
  import opened Alignment

  /** Costs under which no move gains more than a match: a non-negative match score, no rewarded mismatch or gap. */
  predicate Unrewarding(p: Params)
  {
    p.matchScore >= 0 && p.mismatch <= p.matchScore && p.gapOpen <= 0 && p.gapExtend <= 0
  }

  /** Costs under which every mismatch and every gap loses strictly against a match. */
  predicate Penalising(p: Params)
  {
    Unrewarding(p) && p.mismatch < p.matchScore && p.gapOpen < 0 && p.gapExtend < 0
  }

  /**
   * Under unrewarding costs a path gains at most one match score per symbol of a it
   * consumes; under penalising costs it gains exactly that much only when every
   * move is diagonal.
   */
  lemma {:induction false} SegCostAtMostMatches(p: Params, a: seq<char>, b: seq<char>, path: seq<Move>, i: nat, j: nat)
    requires Unrewarding(p)
    requires i + CountB(path) == |b| && j + CountA(path) == |a|
    ensures SegCost(p, a, b, path, i, j) <= CountA(path) * p.matchScore
    ensures Penalising(p) && SegCost(p, a, b, path, i, j) == CountA(path) * p.matchScore ==>
              forall k :: 0 <= k < |path| ==> path[k] == Diagonal
    decreases |path|
  {
    if path != [] {
      var m, rest := path[0], path[1..];
      var c := CountA(rest);
      SegCostAtMostMatches(p, a, b, rest, RowAfter(m, i), ColumnAfter(m, j));
      StepCostAtMost(p, a, b, m, i, j, Cell(p, a, b, i, j).gap);
      MultiplySuccessor(c, p.matchScore);
      assert SegCost(p, a, b, path, i, j) == StepCost(p, a, b, m, i, j, Cell(p, a, b, i, j).gap) + SegCost(p, a, b, rest, RowAfter(m, i), ColumnAfter(m, j));
      if Penalising(p) && SegCost(p, a, b, path, i, j) == CountA(path) * p.matchScore {
        forall k | 0 <= k < |path|
          ensures path[k] == Diagonal
        {
          if k > 0 {
            assert path[k] == rest[k - 1];
          }
        }
      }
    }
  }

  /** One more symbol costs one more score. */
  lemma MultiplySuccessor(n: int, x: int)
    ensures (n + 1) * x == n * x + x
  {
  }

  /** A path of diagonal moves only is the run of diagonal moves of its length. */
  lemma {:induction false} OnlyDiagonals(path: seq<Move>)
    requires forall k :: 0 <= k < |path| ==> path[k] == Diagonal
    ensures path == Run(Diagonal, |path|)
  {
    if path != [] {
      OnlyDiagonals(path[1..]);
      assert path == [path[0]] + path[1..];
    }
  }

  /**
   * Under unrewarding costs one move gains at most a match score, and a vertical move
   * nothing; under penalising costs a gap move gains strictly less.
   */
  lemma StepCostAtMost(p: Params, a: seq<char>, b: seq<char>, m: Move, i: nat, j: nat, g: GapState)
    requires Unrewarding(p)
    requires RowAfter(m, i) <= |b| && ColumnAfter(m, j) <= |a|
    ensures StepCost(p, a, b, m, i, j, g) <= if m == Vertical then 0 else p.matchScore
    ensures Penalising(p) && m != Diagonal ==> StepCost(p, a, b, m, i, j, g) < if m == Vertical then 0 else p.matchScore
  {
  }

  /** Aligning the suffixes of a against themselves from (i, i) diagonally gains one match score per symbol. */
  lemma {:induction false} DiagonalsCost(p: Params, a: seq<char>, i: nat)
    requires i <= |a|
    ensures SegCost(p, a, a, Run(Diagonal, |a| - i), i, i) == (|a| - i) * p.matchScore
    decreases |a| - i
  {
    if i < |a| {
      var n := |a| - i - 1;
      var path := Run(Diagonal, n + 1);
      assert path[0] == Diagonal && path[1..] == Run(Diagonal, n);
      DiagonalsCost(p, a, i + 1);
      MultiplySuccessor(n, p.matchScore);
    }
  }

  /** The diagonal path renders s against itself as s above s with '|' in every column. */
  lemma {:induction false} DiagonalsRender(p: Params, s: seq<char>)
    ensures TopRow(Run(Diagonal, |s|), s) == s && BottomRow(Run(Diagonal, |s|), s) == s
    ensures forall k :: 0 <= k < |s| ==> MarkerRow(p, Run(Diagonal, |s|), s, s)[k] == '|'
  {
    if s != [] {
      var path := Run(Diagonal, |s|);
      assert path[0] == Diagonal && path[1..] == Run(Diagonal, |s[1..]|);
      DiagonalsRender(p, s[1..]);
      assert s == [s[0]] + s[1..];
      var mr := MarkerRow(p, path, s, s);
      forall k | 0 <= k < |s|
        ensures mr[k] == '|'
      {
        if k > 0 {
          assert mr[k] == MarkerRow(p, Run(Diagonal, |s[1..]|), s[1..], s[1..])[k - 1];
        }
      }
    }
  }

  /** Aligning a sequence against itself under unrewarding costs scores one match score per symbol. */
  lemma IdenticalScore(p: Params, a: seq<char>, path: seq<Move>, al: Trace)
    requires Unrewarding(p) && Explains(p, a, a, path, al)
    ensures al.score == |a| * p.matchScore
  {
    SegCostAtMostMatches(p, a, a, path, 0, 0);
    DiagonalsCost(p, a, 0);
    NoPathBeatsCell(p, a, a, Run(Diagonal, |a|), 0, 0);
  }

  /**
   * Aligning a sequence against itself under penalising costs takes no gap: both
   * rows are a with the trailing space, and every column is marked '|'.
   */
  lemma IdenticalRendering(p: Params, a: seq<char>, path: seq<Move>, al: Trace)
    requires Penalising(p) && Explains(p, a, a, path, al)
    ensures path == Run(Diagonal, |a|)
    ensures al.top == a + [' '] && al.bottom == a + [' ']
    ensures |al.marker| == |a| + 1 && forall k :: 0 <= k < |a| ==> al.marker[k] == '|'
  {
    IdenticalScore(p, a, path, al);
    SegCostAtMostMatches(p, a, a, path, 0, 0);
    OnlyDiagonals(path);
    DiagonalsRender(p, a);
  }
}
