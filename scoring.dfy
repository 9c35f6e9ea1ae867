// Scoring policy of the global aligner: the pair score and the gap cost
// that consults a neighbour cell's recorded gap state.

module Scoring {

  /** The four scoring constants of one run (module globals in the original). */
  datatype Params = Params(matchScore: int, mismatch: int, gapOpen: int, gapExtend: int)

  /** Gap directions: `V` ('v') consumes a symbol of b against '-', `H` ('h') a symbol of a against '-'. */
  datatype Dir = V | H

  /**
   * The gap state of one cell: whether it was reached by a gap move and in which
   * direction(s). The original stores the flag as the integer 0 or 1.
   */
  datatype GapState = GapState(gapped: bool, dirs: set<Dir>)

  /** The state of a cell that no gap move reached, `[0, set()]` in the original. */
  const NoGap := GapState(false, {})

  /** Score of aligning symbol `x` with symbol `y`. */
  function IsMatch(p: Params, x: char, y: char): (r: int)
    ensures x == y ==> r == p.matchScore
    ensures x != y ==> r == p.mismatch
  {
    if x == y then p.matchScore else p.mismatch
  }

  /**
   * Cost of a gap move in direction `d` out of a cell whose gap state is `g`:
   * extension exactly when `g` is flagged and records `d`, opening otherwise.
   */
  function GapCost(p: Params, g: GapState, d: Dir): (r: int)
    ensures g.gapped && d in g.dirs ==> r == p.gapExtend
    ensures !(g.gapped && d in g.dirs) ==> r == p.gapOpen
  {
    if g.gapped then
      match d
      case V => if V in g.dirs then p.gapExtend else p.gapOpen
      case H => if H in g.dirs then p.gapExtend else p.gapOpen
    else
      p.gapOpen
  }
}
